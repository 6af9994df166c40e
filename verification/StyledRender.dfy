/** The renderer: a machine over single characters with a stack of styles. */
module StyledRender {
  import opened Wrappers
  import opened Scanning
  import opened StyledText

  /** A label: its text and the style on top of the stack when it was made. */
  datatype Label = Label(text: string, style: Option<StyleMap>)

  function Top(groups: seq<StyleMap>): Option<StyleMap> {
    if groups == [] then None else Some(groups[|groups| - 1])
  }

  /** Empty style maps are never pushed. */
  function Push(groups: seq<StyleMap>, style: StyleMap): seq<StyleMap> {
    if style == map[] then groups else groups + [style]
  }

  datatype Machine = Machine(
    labels: seq<Label>, groups: seq<StyleMap>,
    inStyle: bool, closingStyle: bool, closingBlock: bool,
    currStyle: string, currText: string)
  {
    /** Makes a label of the text collected so far. */
    function Flush(): Machine {
      this.(labels := labels + [Label(currText, Top(groups))], currText := "")
    }

    /** One character, with the one after it. */
    function Step(curr: char, next: char, last: bool): Machine {
      var m := if curr == '{' && next == '@' then Flush().(inStyle := true) else this;
      var m := if curr == '@' && next == '}' then m.(closingStyle := true) else m;
      var m := if curr == '{' && next == '/' then m.(closingBlock := true) else m;
      var m := if !m.inStyle && !m.closingBlock then
                 var t := m.(currText := m.currText + [curr]);
                 if last || curr == ' ' then t.Flush() else t
               else m;
      var m := if m.closingBlock && curr == '}' then
                 var f := m.Flush();
                 f.(groups := Pop(f.groups), closingBlock := false)
               else m;
      var m := if m.inStyle && !m.closingStyle then m.(currStyle := m.currStyle + [curr]) else m;
      if m.closingStyle && curr == '}' then
        m.(closingStyle := false, inStyle := false, groups := Push(m.groups, ParseStyle(m.currStyle)), currStyle := "")
      else m
    }

    /** The machine after the rest of the content. */
    function Run(rest: string): Machine
      decreases |rest|
    {
      if rest == "" then this
      else Step(rest[0], NextChar(rest, 0), |rest| == 1).Run(rest[1..])
    }
  }

  function Start(groups: seq<StyleMap>): Machine {
    Machine([], groups, false, false, false, "", "")
  }

  function Prefixed(prefix: string, content: string): string {
    if prefix == "" then content else prefix + " " + content
  }

  class HtmlProvider {
    var stringBuilder: string
    var prefix: string
    var styleGroups: seq<StyleMap>

    constructor ()
      ensures stringBuilder == "" && prefix == "" && styleGroups == []
    {
      stringBuilder, prefix, styleGroups := "", "", [];
    }

    method RemoveLastStyleGroup()
      modifies this`styleGroups
      ensures styleGroups == Pop(old(styleGroups))
    {
      if |styleGroups| > 0 {
        styleGroups := styleGroups[..|styleGroups| - 1];
      }
    }

    method AddStyleGroup(str: string)
      modifies this`styleGroups
      ensures styleGroups == Push(old(styleGroups), ParseStyle(str))
    {
      var parts := Split(str, '#');
      var styleMap: StyleMap := map[];
      var i := 0;
      while i < |parts|
        invariant i <= |parts|
        invariant AddParts(styleMap, parts[i..]) == ParseStyle(str)
      {
        if parts[i] != " " && parts[i] != "{" {
          var styleParts := Split(parts[i], '-');
          if |styleParts| == 2 {
            styleMap := styleMap[styleParts[0] := styleParts[1]];
          }
        }
        i := i + 1;
      }
      if styleMap != map[] {
        styleGroups := styleGroups + [styleMap];
      }
    }

    function GetLabel(text: string): Label
      reads this
    {
      Label(text, Top(styleGroups))
    }

    /** Renders and clears the collected content, behind the list prefix if there is one; the style stack
        carries over to the next call. */
    method Render() returns (labels: seq<Label>)
      modifies this
      ensures stringBuilder == "" && prefix == old(prefix)
      ensures labels == Start(old(styleGroups)).Run(Prefixed(prefix, old(stringBuilder))).labels
      ensures styleGroups == Start(old(styleGroups)).Run(Prefixed(prefix, old(stringBuilder))).groups
    {
      var content := stringBuilder;
      stringBuilder := "";
      if prefix != "" {
        content := prefix + " " + content;
      }
      labels := RenderContent(content);
    }

    /** The loop of the renderer. */
    method RenderContent(content: string) returns (labels: seq<Label>)
      modifies this`styleGroups
      ensures labels == Start(old(styleGroups)).Run(content).labels
      ensures styleGroups == Start(old(styleGroups)).Run(content).groups
    {
      labels := [];
      var inStyleBlock, isClosingStyle, isClosingBlock := false, false, false;
      var currStyle, currText := "", "";
      ghost var result := Start(styleGroups).Run(content);
      var i := 0;
      while i < |content|
        invariant i <= |content|
        invariant Machine(labels, styleGroups, inStyleBlock, isClosingStyle, isClosingBlock, currStyle, currText)
                  .Run(content[i..]) == result
      {
        ghost var before :=
          Machine(labels, styleGroups, inStyleBlock, isClosingStyle, isClosingBlock, currStyle, currText);
        var curr := content[i];
        var next := NextChar(content, i);
        if curr == OPEN_STYLE[0] && next == OPEN_STYLE[1] {
          inStyleBlock := true;
          labels := labels + [GetLabel(currText)];
          currText := "";
        }
        if curr == HALF_CLOSE[0] && next == HALF_CLOSE[1] {
          isClosingStyle := true;
        }
        if curr == CLOSE_STYLE[0] && next == CLOSE_STYLE[1] {
          isClosingBlock := true;
        }
        if !inStyleBlock && !isClosingBlock {
          currText := currText + [curr];
          if i + 1 == |content| || curr == ' ' {
            labels := labels + [GetLabel(currText)];
            currText := "";
          }
        }
        if isClosingBlock && curr == CLOSE_STYLE[3] {
          labels := labels + [GetLabel(currText)];
          currText := "";
          RemoveLastStyleGroup();
          isClosingBlock := false;
        }
        if inStyleBlock && !isClosingStyle {
          currStyle := currStyle + [curr];
        }
        if isClosingStyle && curr == HALF_CLOSE[1] {
          isClosingStyle := false;
          inStyleBlock := false;
          AddStyleGroup(currStyle);
          currStyle := "";
        }
        assert content[i..][1..] == content[i + 1..];
        assert Machine(labels, styleGroups, inStyleBlock, isClosingStyle, isClosingBlock, currStyle, currText)
          == before.Step(content[i..][0], NextChar(content[i..], 0), |content[i..]| == 1);
        i := i + 1;
      }
    }
  }
}
