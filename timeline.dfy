/**
 * The timeline's rendering rules: each content line is split on " - " into a
 * bold lead and the rest, and the items alternate sides by index parity.
 */
module Timeline {
  import opened Wrappers
  import opened JsStrings

  /** The separator between a line's lead and its rest. */
  const Separator: string := " - "

  /** How one content line is rendered: as it is, or as a bold lead followed
      by the separator and the rest. */
  datatype Line = Verbatim(text: string) | LeadAndRest(lead: string, rest: string)

  /** The characters a rendered line shows, in order; a bold lead is always
      followed by a visible separator. */
  function Shown(line: Line): (s: string)
    ensures line.LeadAndRest? ==> OccursAt(s, Separator, |line.lead|)
  {
    match line
    case Verbatim(text) => text
    case LeadAndRest(lead, rest) =>
      var s := lead + Separator + rest;
      assert s[|lead|..|lead| + |Separator|] == Separator;
      s
  }

  /** `const [lead, ...rest] = text.split(" - ")`, then the lead in bold and
      `rest.join(" - ")` after the separator when `rest` is non-empty, and
      the text itself otherwise. The rendered pieces give back the text; the
      lead is what precedes the first separator. */
  function RenderLine(text: string): (line: Line)
    ensures line.Verbatim? <==> !Contains(text, Separator)
    ensures Shown(line) == text
    ensures line.LeadAndRest? ==>
              !Contains(line.lead, Separator) && IndexOf(text, Separator) == Some(|line.lead|)
  {
    var parts := Split(text, Separator);
    JoinSplit(text, Separator);
    if |parts| > 1 then
      IndexOfSpec(text, Separator);
      LeadAndRest(parts[0], Join(parts[1..], Separator))
    else
      Verbatim(text)
  }

  /** `item.content.map(...)`: one rendered line per content string, each
      showing exactly that string. */
  function RenderContent(content: seq<string>): (lines: seq<Line>)
    ensures |lines| == |content|
    ensures forall i :: 0 <= i < |content| ==> Shown(lines[i]) == content[i]
    ensures forall i :: 0 <= i < |content| ==>
              (lines[i].LeadAndRest? <==> Contains(content[i], Separator))
  {
    if content == [] then [] else [RenderLine(content[0])] + RenderContent(content[1..])
  }

  /** The flex direction of an item on wide screens. */
  datatype Direction = Row | RowReverse

  /** The text alignment of an item's card on wide screens. */
  datatype Align = TextRight | TextLeft

  /** The layout decisions taken from an item's position in the list. */
  datatype Layout = Layout(isLeft: bool, direction: Direction, align: Align, initialX: int)

  /** `isLeft = index % 2 === 0`, the row or reversed row, the right or left
      text alignment, and the entry animation's starting offset. */
  function ItemLayout(index: nat): (l: Layout)
    ensures l.isLeft <==> index % 2 == 0
    ensures l.direction == Row <==> l.isLeft
    ensures l.align == TextRight <==> l.isLeft
    ensures l.initialX == -100 || l.initialX == 100
    ensures l.initialX < 0 <==> l.isLeft
  {
    var isLeft := index % 2 == 0;
    Layout(isLeft,
           if isLeft then Row else RowReverse,
           if isLeft then TextRight else TextLeft,
           if index % 2 == 0 then -100 else 100)
  }

  /** Neighbouring items sit on opposite sides and come in from opposite
      directions; every second item has the same layout. */
  lemma LayoutAlternates(index: nat)
    ensures ItemLayout(index + 1).isLeft != ItemLayout(index).isLeft
    ensures ItemLayout(index + 1).initialX == -ItemLayout(index).initialX
    ensures ItemLayout(index + 2) == ItemLayout(index)
  {
  }

  /** A line without the separator is shown verbatim. */
  lemma VerbatimExample()
    ensures RenderLine("Python") == Verbatim("Python")
  {
    var s := "Python";
    assert !Contains(s, Separator) by {
      forall k | 0 <= k <= |s| - |Separator| ensures !OccursAt(s, Separator, k) {
        assert s[k..k + 3][1] == s[k + 1] != '-';
      }
    }
  }

  /** A line whose first separator starts at `i` is cut there: the lead is
      what comes before it and the rest is everything after it. */
  lemma RenderAtFirstSeparator(text: string, i: nat)
    requires OccursAt(text, Separator, i)
    requires forall k :: 0 <= k < i ==> !OccursAt(text, Separator, k)
    ensures RenderLine(text) == LeadAndRest(text[..i], text[i + |Separator|..])
  {
    IndexOfSpec(text, Separator);
    var line := RenderLine(text);
    assert |line.lead| == i;
    assert text == line.lead + Separator + line.rest;
    assert text[..i] == line.lead;
    assert text[i + |Separator|..] == line.rest;
  }

  /** "Lead - a - b" is cut at its first separator; the second one stays
      inside the rest. */
  lemma LeadAndRestExample()
    ensures RenderLine("Lead" + Separator + "a - b") == LeadAndRest("Lead", "a - b")
  {
    var s := "Lead" + Separator + "a - b";
    assert OccursAt(s, Separator, 4) by { assert s[4..7] == Separator; }
    forall k | 0 <= k < 4 ensures !OccursAt(s, Separator, k) {
      assert s[k..k + 3][1] == s[k + 1] != '-';
    }
    RenderAtFirstSeparator(s, 4);
    assert s[..4] == "Lead" && s[7..] == "a - b";
  }
}
