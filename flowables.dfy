/**
  Turning the rendered waiver text into document blocks (app.py lines
  105-141): split into lines, take the first line with non-whitespace
  content out as the bold header, expand tabs in every remaining line and
  emit one preformatted block per line, blank lines included.
*/
module Flowables {
  import opened Wrappers
  import opened Text

  /** The paragraph style a block is laid out with. */
  datatype Style = HeaderStyle | Preformatted

  /** One paragraph handed to the document builder. */
  datatype Block = Block(style: Style, text: string)

  /** A line whose `strip()` is the empty string. */
  predicate IsBlank(line: string) {
    Strip(line) == []
  }

  /** The index of the first line that is not blank, if there is one. */
  function FirstNonBlank(lines: seq<string>): (r: Option<nat>)
    ensures r.Some? ==> (r.value < |lines| && !IsBlank(lines[r.value])
                         && forall j :: 0 <= j < r.value ==> IsBlank(lines[j]))
    ensures r.None? ==> forall j :: 0 <= j < |lines| ==> IsBlank(lines[j])
  {
    if lines == [] then None
    else if !IsBlank(lines[0]) then Some(0)
    else match FirstNonBlank(lines[1..])
      case None => None
      case Some(i) => Some(i + 1)
  }

  /** `lines.pop(i)`: the list without its element at `i`. */
  function RemoveAt<T>(s: seq<T>, i: nat): (r: seq<T>)
    requires i < |s|
    ensures |r| == |s| - 1
    ensures forall k {:trigger r[k]} :: 0 <= k < i ==> r[k] == s[k]
    ensures forall k :: i <= k < |r| ==> r[k] == s[k + 1]
  {
    s[..i] + s[i + 1..]
  }

  /**
    `line.replace('\t', '    ')`: no tab is left, each tab adds three
    characters, and a line without tabs is unchanged.
  */
  function ExpandTabs(line: string): (r: string)
    ensures '\t' !in r
    ensures |r| == |line| + 3 * Count(line, '\t')
    ensures '\t' !in line ==> r == line
  {
    ReplaceCharRemoves(line, '\t', "    ");
    ReplaceCharLength(line, '\t', "    ");
    if '\t' !in line then ReplaceCharAbsent(line, '\t', "    "); ReplaceChar(line, '\t', "    ")
    else ReplaceChar(line, '\t', "    ")
  }

  /** One preformatted block per line, tabs expanded, in order. */
  function BodyBlocks(lines: seq<string>): (r: seq<Block>)
    ensures |r| == |lines|
    ensures forall k {:trigger r[k]} :: 0 <= k < |lines| ==> r[k] == Block(Preformatted, ExpandTabs(lines[k]))
  {
    seq(|lines|, k requires 0 <= k < |lines| => Block(Preformatted, ExpandTabs(lines[k])))
  }

  /** The blocks the code builds from a list of lines: one per line, header included. */
  function Layout(lines: seq<string>): (r: seq<Block>)
    ensures |r| == |lines|
  {
    match FirstNonBlank(lines)
    case None => BodyBlocks(lines)
    case Some(i) => [Block(HeaderStyle, Strip(lines[i]))] + BodyBlocks(RemoveAt(lines, i))
  }

  /**
    The header loop of lines 109-114: the first line whose `strip()` is
    non-empty is stripped into the header and popped from the list.
  */
  method PopHeader(lines: seq<string>) returns (headerLine: Option<string>, rest: seq<string>)
    ensures headerLine.None? <==> FirstNonBlank(lines).None?
    ensures headerLine.None? ==> rest == lines
    ensures headerLine.Some? ==> (headerLine.value == Strip(lines[FirstNonBlank(lines).value])
                                  && rest == RemoveAt(lines, FirstNonBlank(lines).value))
  {
    rest := lines;
    headerLine := None;
    var idx := 0;
    while idx < |rest|
      invariant idx <= |rest| && rest == lines
      invariant forall j :: 0 <= j < idx ==> IsBlank(rest[j])
    {
      if Strip(rest[idx]) != [] {
        headerLine := Some(Strip(rest[idx]));
        rest := rest[..idx] + rest[idx + 1..];
        assert FirstNonBlank(lines) == Some(idx);
        return;
      }
      idx := idx + 1;
    }
  }

  /**
    Lines 139-141: rebuild the lines with every tab expanded, then append
    one preformatted block per line to `flowables`.
  */
  method AppendBody(flowables: seq<Block>, lines: seq<string>) returns (r: seq<Block>)
    ensures r == flowables + BodyBlocks(lines)
  {
    var expanded := seq(|lines|, k requires 0 <= k < |lines| => ExpandTabs(lines[k]));
    ghost var body := BodyBlocks(lines);
    r := flowables;
    for i := 0 to |expanded|
      invariant r == flowables + body[..i]
    {
      r := r + [Block(Preformatted, expanded[i])];
      assert body[..i + 1] == body[..i] + [body[i]];
    }
    assert body[..|expanded|] == body;
  }

  /**
    Lines 105-141: split the text, pop the header, append the header block
    when there is one, then the body blocks.
  */
  method LayOut(renderedText: string) returns (flowables: seq<Block>)
    ensures flowables == Layout(SplitLines(renderedText))
  {
    var lines := SplitLines(renderedText);
    ghost var original := lines;
    flowables := [];
    var headerLine;
    headerLine, lines := PopHeader(lines);
    LayoutOfPopped(original, headerLine, lines);
    if headerLine.Some? && headerLine.value != [] {
      flowables := flowables + [Block(HeaderStyle, headerLine.value)];
    }
    flowables := AppendBody(flowables, lines);
  }

  /** The header loop's result determines the layout. */
  lemma LayoutOfPopped(lines: seq<string>, headerLine: Option<string>, rest: seq<string>)
    requires headerLine.None? <==> FirstNonBlank(lines).None?
    requires headerLine.None? ==> rest == lines
    requires headerLine.Some? ==> (headerLine.value == Strip(lines[FirstNonBlank(lines).value])
                                   && rest == RemoveAt(lines, FirstNonBlank(lines).value))
    ensures headerLine.Some? ==> headerLine.value != []
    ensures Layout(lines) == (if headerLine.Some? then [Block(HeaderStyle, headerLine.value)] else []) + BodyBlocks(rest)
  {
    if headerLine.None? {
      assert [] + BodyBlocks(rest) == BodyBlocks(rest);
    }
  }

  // ---------------------------------------------------------------------
  // What the layout promises

  /**
    When line `i` is the first line with non-whitespace content, the header
    block is that line stripped, it comes first and it is the only header;
    the body is every other line in its original order, tabs expanded, so
    there is one block per input line.
  */
  lemma LayoutWithHeader(lines: seq<string>, i: nat)
    requires i < |lines| && !IsBlank(lines[i])
    requires forall j :: 0 <= j < i ==> IsBlank(lines[j])
    ensures |Layout(lines)| == |lines|
    ensures Layout(lines)[0] == Block(HeaderStyle, Strip(lines[i]))
    ensures forall k :: 1 <= k <= i ==> Layout(lines)[k] == Block(Preformatted, ExpandTabs(lines[k - 1]))
    ensures forall k {:trigger Layout(lines)[k]} :: i < k < |lines| ==> Layout(lines)[k] == Block(Preformatted, ExpandTabs(lines[k]))
    ensures forall k :: 1 <= k < |Layout(lines)| ==> Layout(lines)[k].style == Preformatted
  {
    FirstNonBlankUnique(lines, i);
    HeaderThenBody(Layout(lines), Block(HeaderStyle, Strip(lines[i])), lines, i);
  }

  /** A header block followed by the body of `lines` without line `i`. */
  lemma HeaderThenBody(b: seq<Block>, header: Block, lines: seq<string>, i: nat)
    requires i < |lines| && b == [header] + BodyBlocks(RemoveAt(lines, i))
    ensures |b| == |lines| && b[0] == header
    ensures forall k :: 1 <= k <= i ==> b[k] == Block(Preformatted, ExpandTabs(lines[k - 1]))
    ensures forall k {:trigger b[k]} :: i < k < |lines| ==> b[k] == Block(Preformatted, ExpandTabs(lines[k]))
    ensures forall k :: 1 <= k < |b| ==> b[k].style == Preformatted
  {
    var rest := RemoveAt(lines, i);
    var body := BodyBlocks(rest);
    forall k | 1 <= k <= i ensures b[k] == Block(Preformatted, ExpandTabs(lines[k - 1])) {
      assert b[k] == body[k - 1] && rest[k - 1] == lines[k - 1];
    }
    forall k {:trigger b[k]} | i < k < |lines| ensures b[k] == Block(Preformatted, ExpandTabs(lines[k])) {
      assert b[k] == body[k - 1] && rest[k - 1] == lines[k];
    }
    forall k | 1 <= k < |b| ensures b[k].style == Preformatted {
      assert b[k] == body[k - 1];
    }
  }

  /** The first non-blank line is the only line that is non-blank with nothing but blank lines before it. */
  lemma FirstNonBlankUnique(lines: seq<string>, i: nat)
    requires i < |lines| && !IsBlank(lines[i])
    requires forall j :: 0 <= j < i ==> IsBlank(lines[j])
    ensures FirstNonBlank(lines) == Some(i)
  {
    var r := FirstNonBlank(lines);
    assert r.Some?;
    assert !(r.value < i);
    assert !(i < r.value);
  }

  /**
    When every line is blank or whitespace only, there is no header and every
    line still becomes a body block.
  */
  lemma LayoutAllBlank(lines: seq<string>)
    requires forall j :: 0 <= j < |lines| ==> IsBlank(lines[j])
    ensures var b := Layout(lines);
      |b| == |lines|
      && forall k :: 0 <= k < |b| ==> b[k] == Block(Preformatted, ExpandTabs(lines[k]))
  {
  }

  /** A header is produced exactly when some line has non-whitespace content. */
  lemma LayoutHeaderIff(lines: seq<string>)
    ensures (|Layout(lines)| > 0 && Layout(lines)[0].style == HeaderStyle)
      <==> exists j :: 0 <= j < |lines| && !IsBlank(lines[j])
  {
    if j :| 0 <= j < |lines| && !IsBlank(lines[j]) {
      assert FirstNonBlank(lines).Some?;
    }
  }

  /** A header's text is never blank and never starts or ends with whitespace. */
  lemma HeaderStripped(lines: seq<string>)
    requires |Layout(lines)| > 0 && Layout(lines)[0].style == HeaderStyle
    ensures var h := Layout(lines)[0].text;
      h != [] && !IsSpace(h[0]) && !IsSpace(h[|h| - 1])
  {
    var i := FirstNonBlank(lines).value;
    assert Layout(lines)[0].text == StripBy(lines[i], IsSpace);
  }

  /** No body block contains a tab. */
  lemma BodyHasNoTabs(lines: seq<string>)
    ensures forall k :: 0 <= k < |Layout(lines)| && Layout(lines)[k].style == Preformatted ==>
      '\t' !in Layout(lines)[k].text
  {
    var b := Layout(lines);
    var rest := match FirstNonBlank(lines) case None => lines case Some(i) => RemoveAt(lines, i);
    var offset := if FirstNonBlank(lines).Some? then 1 else 0;
    assert b == b[..offset] + BodyBlocks(rest);
    forall k | 0 <= k < |b| && b[k].style == Preformatted ensures '\t' !in b[k].text {
      assert k >= offset;
      assert b[k] == BodyBlocks(rest)[k - offset];
    }
  }

  /**
    Tab expansion works character by character: a tab becomes exactly four
    spaces and every other character stays, in order.
  */
  lemma ExpandTabsCons(c: char, rest: string)
    ensures ExpandTabs([c] + rest) == (if c == '\t' then "    " else [c]) + ExpandTabs(rest)
  {
    ReplaceCharAppend([c], rest, '\t', "    ");
  }
}
