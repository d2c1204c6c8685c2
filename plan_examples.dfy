/**
 * Two worked lines in the format the plan generator is asked to produce: a meal
 * line ending in a recipe link, and a day heading followed by an empty line.
 */
module PlanExamples {
  import opened Wrappers
  import opened Text
  import opened Url
  import opened MealPlanPdf

  /** A meal line with a recipe link at its end. */
  const ExampleLine: string := "Lunch: Wrap - https://a.io/r"

  /** Neither scheme starts before index 14. */
  lemma ExampleNoEarlierScheme(k: nat)
    requires k < 14
    ensures MatchAt(ExampleLine, k) == None
  {
    var rest := ExampleLine[k..];
    assert rest[0] == ExampleLine[k] && rest[1] == ExampleLine[k + 1];
    assert rest[0] != 'h' || rest[1] != 't';
    assert !StartsWith(rest, Https) && !StartsWith(rest, Http);
  }

  /** At index 14 the pattern matches up to the end of the line. */
  lemma ExampleMatchAt()
    ensures MatchAt(ExampleLine, 14) == Some(28)
  {
    assert |ExampleLine| == 28;
    assert SchemeLength(ExampleLine, 14) == 8 by {
      forall m | 0 <= m < 8 ensures ExampleLine[14..][m] == Https[m] {
        assert ExampleLine[14..][m] == ExampleLine[14 + m];
      }
    }
    RunEndUnique(ExampleLine, 22, 28);
  }

  /** So the search reports the recipe link. */
  lemma ExampleFindUrl()
    ensures FindUrl(ExampleLine) == Some(Span(14, 28))
    ensures ExampleLine[14..28] == "https://a.io/r"
  {
    assert ExampleLine[14..28] == "https://a.io/r";
    ExampleMatchAt();
    forall k, e | 0 <= k < 14 ensures !IsMatchAt(ExampleLine, k, e) {
      ExampleNoEarlierScheme(k);
    }
    FindUrlIsTheLeftmostMatch(ExampleLine, 14, 28);
  }

  /** The trailing space goes, the dash stays. */
  lemma ExampleStrip()
    ensures Strip("Lunch: Wrap - ", IsLabelPad) == "Lunch: Wrap -"
  {
    var prefix := "Lunch: Wrap - ";
    assert StripStart(prefix, IsLabelPad) == 0;
    assert StripEnd(prefix, IsLabelPad) == 13 by {
      assert prefix[..13][12] == '-';
    }
    assert prefix[0..13] == "Lunch: Wrap -";
  }

  /** The display text is the line before the link, stripped. */
  lemma ExampleDisplay()
    ensures DisplayText(ExampleLine, "https://a.io/r") == "Lunch: Wrap -"
  {
    var url := "https://a.io/r";
    assert ExampleLine[14..28] == url;
    assert DisplayText(ExampleLine, url) == Strip(ExampleLine[..14] + ExampleLine[28..], IsLabelPad) by {
      ExampleFindUrl();
      DisplayOfSingleUrl(ExampleLine);
    }
    assert ExampleLine[..14] + ExampleLine[28..] == "Lunch: Wrap - ";
    ExampleStrip();
  }

  /** The meal line yields a label cell carrying the display text, then the link cell. */
  lemma ExampleRecipeShape(c: Rgb)
    ensures var cells := LineCells(ExampleLine, c);
            |cells| == 2 &&
            cells[0] == Cell(DisplayText(ExampleLine, ExampleLine[14..28]) + ":", None, Black, Regular) &&
            cells[1] == Cell(ExampleLine[14..28], Some(ExampleLine[14..28]), Blue, Underline)
  {
    ExampleFindUrl();
    ExampleDisplay();
    UrlLineCells(ExampleLine, c);
  }

  /** The meal line yields the label "Lunch: Wrap -:" and then the link cell. */
  lemma ExampleRecipeLine(c: Rgb)
    ensures LineCells(ExampleLine, c) ==
      [Cell("Lunch: Wrap -:", None, Black, Regular), Cell("https://a.io/r", Some("https://a.io/r"), Blue, Underline)]
  {
    var cells := LineCells(ExampleLine, c);
    var url := ExampleLine[14..28];
    ExampleRecipeShape(c);
    assert url == "https://a.io/r" by {
      ExampleFindUrl();
    }
    assert DisplayText(ExampleLine, url) + ":" == "Lunch: Wrap -:" by {
      ExampleDisplay();
    }
    assert cells == [cells[0], cells[1]];
  }

  /** A line without the letter h cannot hold a URL. */
  lemma ExampleNoScheme(line: string)
    requires 'h' !in line
    ensures !HasUrl(line)
  {
    forall k, e ensures !IsMatchAt(line, k, e) {
      if 0 <= k < e <= |line| {
        var u := line[k..e];
        assert u[0] == line[k];
        assert line[k] in line;
        assert !StartsWith(u, Http) && !StartsWith(u, Https);
      }
    }
  }

  /** A heading followed by a newline is two lines, the second one empty. */
  lemma ExampleDayLines(text: string)
    requires text == "Monday:\n"
    ensures Lines(text) == ["Monday:", ""]
  {
    var parts := ["Monday:", ""];
    assert Join(parts, '\n') == text;
    SplitJoin(parts, '\n');
  }

  /** Both lines are copied verbatim. */
  lemma ExampleDayCells()
    ensures PlanCells(["Monday:", ""], Black) == [Cell("Monday:", None, Black, Regular), Cell("", None, Black, Regular)]
  {
    var parts := ["Monday:", ""];
    ExampleNoScheme(parts[0]);
    ExampleNoScheme(parts[1]);
    UrlFreePlanVerbatim(parts, Black);
  }

  /** "Monday:\n" yields two cells, the second one empty. */
  lemma ExampleDayHeading(text: string)
    requires text == "Monday:\n"
    ensures PlanCells(Lines(text), Black) ==
      [Cell("Monday:", None, Black, Regular), Cell("", None, Black, Regular)]
  {
    ExampleDayLines(text);
    ExampleDayCells();
  }
}
