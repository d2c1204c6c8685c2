/**
 * `PDF.add_meal_plan` from meal_plan_app.py: every line of the generated plan
 * becomes one plain cell, or, when it holds a URL, an optional label cell and a
 * blue, underlined link cell. The PDF library's drawing calls are replaced by a
 * record of the cells emitted together with the text colour and font style in
 * force when each was emitted.
 */
module MealPlanPdf {
  import opened Wrappers
  import opened Text
  import opened Url

  /** A `set_text_color(r, g, b)` value. */
  datatype Rgb = Rgb(red: int, green: int, blue: int)

  const Black: Rgb := Rgb(0, 0, 0)
  const Blue: Rgb := Rgb(0, 0, 255)

  /**
   * The font style strings `add_meal_plan` passes to `set_font`: "" and "U".
   * (The header's bold "B" is drawn outside the modelled code.)
   */
  datatype FontStyle = Regular | Underline

  /** One `cell(...)` call: its text, its link target if any, and the colour and style it was drawn in. */
  datatype Cell = Cell(text: string, link: Option<string>, color: Rgb, style: FontStyle)

  /** The characters `strip(": ")` removes. */
  predicate IsLabelPad(c: char) {
    c == ':' || c == ' '
  }

  /** `text.split("\n")` */
  function Lines(text: string): seq<string> {
    Split(text, '\n')
  }

  /** `line.replace(url, "").strip(": ")`: never begins or ends with a colon or a space. */
  function DisplayText(line: string, url: string): (d: string)
    requires |url| > 0
    ensures d == [] || (!IsLabelPad(d[0]) && !IsLabelPad(d[|d| - 1]))
  {
    Strip(ReplaceAll(line, url), IsLabelPad)
  }

  /** The line holds a match of `https?://\S+`. */
  predicate HasUrl(line: string) {
    FindUrl(line).Some?
  }

  /**
   * The cells one line yields, given the text colour in force before it: one or
   * two cells, the last of which is a link exactly when the line holds a URL.
   */
  function LineCells(line: string, color: Rgb): (r: seq<Cell>)
    ensures 1 <= |r| <= 2
    ensures r[|r| - 1].link.Some? <==> HasUrl(line)
    ensures |r| == 2 ==> HasUrl(line)
  {
    match FindUrl(line)
    case None => [Cell(line, None, color, Regular)]
    case Some(span) =>
      var url := line[span.start..span.end];
      var display := DisplayText(line, url);
      (if display == [] then [] else [Cell(display + ":", None, Black, Regular)])
      + [Cell(url, Some(url), Blue, Underline)]
  }

  /**
   * The text colour after the lines have been emitted, starting from colour
   * `c`: either still `c` or reset to black.
   */
  function ColorAfter(lines: seq<string>, c: Rgb): (r: Rgb)
    ensures r == c || r == Black
  {
    if lines == [] then c
    else if HasUrl(lines[|lines| - 1]) then Black
    else ColorAfter(lines[..|lines| - 1], c)
  }

  /**
   * The cells a sequence of lines yields, in line order, starting from text
   * colour `c`: at least one and at most two per line.
   */
  function PlanCells(lines: seq<string>, c: Rgb): (r: seq<Cell>)
    ensures |lines| <= |r| <= 2 * |lines|
  {
    if lines == [] then []
    else
      var init := lines[..|lines| - 1];
      PlanCells(init, c) + LineCells(lines[|lines| - 1], ColorAfter(init, c))
  }

  /** Emitting one more line extends the cells and updates the colour. */
  lemma PlanStep(lines: seq<string>, i: nat, c: Rgb)
    requires i < |lines|
    ensures PlanCells(lines[..i + 1], c) == PlanCells(lines[..i], c) + LineCells(lines[i], ColorAfter(lines[..i], c))
    ensures ColorAfter(lines[..i + 1], c) == if HasUrl(lines[i]) then Black else ColorAfter(lines[..i], c)
  {
    assert lines[..i + 1][..i] == lines[..i];
  }

  /** The PDF object: the cells emitted so far and its current text colour and font style. */
  class Pdf {
    var cells: seq<Cell>
    var textColor: Rgb
    var fontStyle: FontStyle

    /** `PDF()`: nothing emitted yet, black text, regular style. */
    constructor ()
      ensures cells == [] && textColor == Black && fontStyle == Regular
    {
      cells := [];
      textColor := Black;
      fontStyle := Regular;
    }

    /** The body of the loop in `add_meal_plan`: the cells of one line. */
    method EmitLine(line: string)
      requires fontStyle == Regular
      modifies this
      ensures cells == old(cells) + LineCells(line, old(textColor))
      ensures textColor == if HasUrl(line) then Black else old(textColor)
      ensures fontStyle == Regular
    {
      match FindUrl(line)
      case Some(span) =>
        var url := line[span.start..span.end];
        var display := DisplayText(line, url);
        ghost var labelCells := if display == [] then [] else [Cell(display + ":", None, Black, Regular)];
        ConcatAssoc(cells, labelCells, [Cell(url, Some(url), Blue, Underline)]);
        textColor := Black;
        if display != [] {
          cells := cells + [Cell(display + ":", None, textColor, fontStyle)];
        }
        textColor := Blue;
        fontStyle := Underline;
        cells := cells + [Cell(url, Some(url), textColor, fontStyle)];
        fontStyle := Regular;
        textColor := Black;
      case None =>
        cells := cells + [Cell(line, None, textColor, fontStyle)];
    }

    /**
     * `add_meal_plan(text)`: appends the cells of every line of `text`, in
     * order; afterwards the font style is regular again, and the text colour
     * is black if any line held a URL and unchanged otherwise.
     */
    method AddMealPlan(text: string)
      modifies this
      ensures cells == old(cells) + PlanCells(Lines(text), old(textColor))
      ensures textColor == ColorAfter(Lines(text), old(textColor))
      ensures fontStyle == Regular
    {
      fontStyle := Regular;
      var lines := Lines(text);
      var i := 0;
      while i < |lines|
        invariant 0 <= i <= |lines|
        invariant cells == old(cells) + PlanCells(lines[..i], old(textColor))
        invariant textColor == ColorAfter(lines[..i], old(textColor))
        invariant fontStyle == Regular
      {
        ghost var done := PlanCells(lines[..i], old(textColor));
        EmitLine(lines[i]);
        PlanStep(lines, i, old(textColor));
        ConcatAssoc(old(cells), done, LineCells(lines[i], ColorAfter(lines[..i], old(textColor))));
        i := i + 1;
      }
      assert lines[..i] == lines;
    }
  }

  /**
   * Lines 101-103: a fresh PDF receives the (already ASCII-cleaned) plan text;
   * its cells are those of the plan's lines starting from black text.
   */
  method RenderMealPlan(safeText: string) returns (cells: seq<Cell>)
    ensures cells == PlanCells(Lines(safeText), Black)
  {
    var pdf := new Pdf();
    pdf.AddMealPlan(safeText);
    cells := pdf.cells;
  }

  // ---------------------------------------------------------------------------
  // What the emitted cells mean

  /** The colour after `a + b` is the colour after `b` started from the colour after `a`. */
  lemma {:induction false} ColorAfterAppend(a: seq<string>, b: seq<string>, c: Rgb)
    ensures ColorAfter(a + b, c) == ColorAfter(b, ColorAfter(a, c))
    decreases |b|
  {
    if b == [] {
      assert a + b == a;
    } else {
      var b' := b[..|b| - 1];
      ColorAfterAppend(a, b', c);
      assert (a + b)[..|a + b| - 1] == a + b';
      assert (a + b)[|a + b| - 1] == b[|b| - 1];
    }
  }

  /** Appending one line appends its cells, drawn in the colour the earlier lines leave. */
  lemma PlanCellsSnoc(init: seq<string>, last: string, c: Rgb)
    ensures PlanCells(init + [last], c) == PlanCells(init, c) + LineCells(last, ColorAfter(init, c))
  {
    var lines := init + [last];
    assert lines[..|lines| - 1] == init;
    assert lines[|lines| - 1] == last;
  }

  /** Cells appear in line order: the cells of `a + b` are those of `a` followed by those of `b`. */
  lemma {:induction false} PlanCellsAppend(a: seq<string>, b: seq<string>, c: Rgb)
    ensures PlanCells(a + b, c) == PlanCells(a, c) + PlanCells(b, ColorAfter(a, c))
    decreases |b|, 1
  {
    if b == [] {
      assert a + b == a;
    } else {
      var b' := b[..|b| - 1];
      assert b == b' + [b[|b| - 1]];
      assert a + b == (a + b') + [b[|b| - 1]];
      PlanCellsAppendLine(a, b', b[|b| - 1], c);
    }
  }

  /** The inductive step of `PlanCellsAppend`: one more line at the end of `b`. */
  lemma {:induction false} PlanCellsAppendLine(a: seq<string>, b: seq<string>, last: string, c: Rgb)
    ensures PlanCells((a + b) + [last], c) == PlanCells(a, c) + PlanCells(b + [last], ColorAfter(a, c))
    decreases |b| + 1, 0
  {
    var mid := ColorAfter(a, c);
    var z := LineCells(last, ColorAfter(b, mid));
    assert PlanCells((a + b) + [last], c) == PlanCells(a + b, c) + z by {
      PlanCellsSnoc(a + b, last, c);
      ColorAfterAppend(a, b, c);
    }
    assert PlanCells(b + [last], mid) == PlanCells(b, mid) + z by {
      PlanCellsSnoc(b, last, mid);
    }
    PlanCellsAppend(a, b, c);
    ConcatAssoc(PlanCells(a, c), PlanCells(b, mid), z);
  }

  /** Concatenation of cell sequences is associative. */
  lemma ConcatAssoc(x: seq<Cell>, y: seq<Cell>, z: seq<Cell>)
    ensures (x + y) + z == x + (y + z)
  {
  }

  /** A text with n newlines has n + 1 lines, so it yields between n + 1 and 2(n + 1) cells. */
  lemma TextCellCount(text: string, c: Rgb)
    ensures Occurrences(text, '\n') + 1 <= |PlanCells(Lines(text), c)| <= 2 * (Occurrences(text, '\n') + 1)
  {
    SplitCount(text, '\n');
  }

  /** Once any line has held a URL, the text colour after the lines is black. */
  lemma {:induction false} ColorAfterUrlLine(lines: seq<string>, c: Rgb, k: nat)
    requires k < |lines| && HasUrl(lines[k])
    ensures ColorAfter(lines, c) == Black
  {
    var n := |lines| - 1;
    if k < n && !HasUrl(lines[n]) {
      var init := lines[..n];
      assert init[k] == lines[k];
      ColorAfterUrlLine(init, c, k);
    }
  }

  /**
   * In a plan rendered from black text, the colour stays black, and every cell
   * that is not a link, URL-free lines and labels alike, is drawn in black.
   */
  lemma {:induction false} RenderedPlainCellsBlack(lines: seq<string>)
    ensures ColorAfter(lines, Black) == Black
    ensures forall cell :: cell in PlanCells(lines, Black) && cell.link.None? ==> cell.color == Black
  {
    if lines != [] {
      var init := lines[..|lines| - 1];
      RenderedPlainCellsBlack(init);
    }
  }

  /**
   * Lines without a URL are copied verbatim, one regular cell each, in the
   * starting colour, which they leave unchanged.
   */
  lemma {:induction false} UrlFreePlanVerbatim(lines: seq<string>, c: Rgb)
    requires forall k :: 0 <= k < |lines| ==> !HasUrl(lines[k])
    ensures |PlanCells(lines, c)| == |lines|
    ensures forall k :: 0 <= k < |lines| ==> PlanCells(lines, c)[k] == Cell(lines[k], None, c, Regular)
    ensures ColorAfter(lines, c) == c
  {
    if lines != [] {
      var init := lines[..|lines| - 1];
      UrlFreePlanVerbatim(init, c);
    }
  }

  /**
   * Starting from any colour but blue, link cells are exactly the blue cells and
   * exactly the underlined cells; every other cell is regular; and a link cell
   * shows its own target, which is a URL.
   */
  lemma {:induction false} LinkCellsExactlyStyled(lines: seq<string>, c: Rgb)
    requires c != Blue
    ensures forall cell :: cell in PlanCells(lines, c) ==>
      && (cell.link.Some? <==> cell.color == Blue)
      && (cell.link.Some? <==> cell.style == Underline)
      && (cell.link.None? ==> cell.style == Regular)
      && (cell.link.Some? ==> cell.text == cell.link.value && IsUrl(cell.text))
    ensures ColorAfter(lines, c) != Blue
  {
    if lines != [] {
      var init := lines[..|lines| - 1];
      LinkCellsExactlyStyled(init, c);
    }
  }

  /**
   * A line holding a URL yields a link cell for the leftmost match, preceded by
   * a black label cell "display:" exactly when the display text is non-empty.
   */
  lemma UrlLineCells(line: string, c: Rgb)
    requires HasUrl(line)
    ensures var span := FindUrl(line).value;
            var url := line[span.start..span.end];
            var display := DisplayText(line, url);
            var cells := LineCells(line, c);
            && IsMatchAt(line, span.start, span.end)
            && |cells| == (if display == [] then 1 else 2)
            && cells[|cells| - 1] == Cell(url, Some(url), Blue, Underline)
            && (display != [] ==> cells[0] == Cell(display + ":", None, Black, Regular))
  {
  }

  /**
   * No copy of the URL starts before the leftmost match, so removing its
   * occurrences keeps the text before the match, drops the match, and treats
   * the rest of the line on its own.
   */
  lemma DisplayKeepsTextBeforeUrl(line: string, i: nat, j: nat)
    requires IsLeftmostMatch(line, i, j)
    ensures ReplaceAll(line, line[i..j]) == line[..i] + ReplaceAll(line[j..], line[i..j])
  {
    NoUrlCopyBeforeMatch(line, Span(i, j));
    ReplaceAllDropsSlice(line, i, j);
  }

  /** No copy of the matched URL starts before the match: it would start an earlier match. */
  lemma NoUrlCopyBeforeMatch(line: string, span: Span)
    requires IsLeftmostMatch(line, span.start, span.end)
    ensures forall k :: 0 <= k < span.start ==> !OccursAt(line, line[span.start..span.end], k)
  {
    var url := line[span.start..span.end];
    forall k | 0 <= k < span.start ensures !OccursAt(line, url, k) {
      if OccursAt(line, url, k) {
        UrlCopyStartsMatch(line, url, k);
      }
    }
  }

  /**
   * When the URL occurs only once, the display text is the line with the URL
   * cut out and the colons and spaces at both ends stripped.
   */
  lemma DisplayOfSingleUrl(line: string)
    requires HasUrl(line)
    requires var span := FindUrl(line).value;
             forall k :: span.end <= k <= |line| ==> !OccursAt(line, line[span.start..span.end], k)
    ensures var span := FindUrl(line).value;
            DisplayText(line, line[span.start..span.end]) == Strip(line[..span.start] + line[span.end..], IsLabelPad)
  {
    var span := FindUrl(line).value;
    var i, j := span.start, span.end;
    var url := line[i..j];
    var rest := line[j..];
    assert ReplaceAll(line, url) == line[..i] + ReplaceAll(rest, url) by {
      DisplayKeepsTextBeforeUrl(line, i, j);
    }
    assert ReplaceAll(rest, url) == rest by {
      forall k | 0 <= k <= |rest| ensures !OccursAt(rest, url, k) {
        OccursAtShift(line, url, j, k);
      }
      ReplaceAllUnchanged(rest, url);
    }
  }
}
