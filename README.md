# Meal-plan PDF export, modelled in Dafny

meal_plan_app.py is a Streamlit prototype. It sends a grocery list to a
text-generation API and shows the 7-day meal plan that comes back. It then
renders the plan into a PDF with clickable recipe links. This project models
the two pieces of that file that make decisions of their own:

- **The generate-button guard** (meal_plan_app.py:63-69). A grocery list that
  is empty or only whitespace gets a warning. This check comes before the API
  key is looked at. A missing or empty key gets an error. Otherwise the plan is
  generated. Module `RequestGuard`.
- **`PDF.add_meal_plan`** (meal_plan_app.py:79-96). The plan text is split on
  `"\n"`. Each line is searched with `https?://\S+`. A line with no match
  becomes one cell holding the line unchanged. A line with a match can first
  get a black label cell `"<display>:"`. The display text is the line with every
  occurrence of the URL removed and `:`/space stripped at both ends. The label
  cell is emitted only when that text is non-empty. Then comes a blue,
  underlined cell whose text and link target are the URL. After that the
  colour is black again and the style regular. The PDF object is the class
  `MealPlanPdf.Pdf`. Its fields are the cells emitted so far, the text colour
  and the font style. `AddMealPlan` is the source's loop, proved against the
  specification function `PlanCells`; `EmitLine` is the loop body, proved
  against `LineCells`.

The Python string operations these rely on are modelled in `Text`:
`str.split`, `str.strip`, `str.replace(old, "")` and `str.isspace`. The regular
expression search is modelled in `Url`. The search is a recursive function,
`FindUrl`, which is proved equal to an independent description: the leftmost
`IsMatchAt`, where the greedy `\S+` runs to whitespace or to the end of the
line. `PlanExamples` works two lines through the model. The meal line
`Lunch: Wrap - https://a.io/r` gives the label `Lunch: Wrap -:` (the dash
survives the strip) and the link cell. The text `Monday:\n` gives two plain
cells, and the second one is empty.

Some consequences of the code, all visible in the model:

- Only the leftmost URL on a line becomes a link. Any later, different URL
  stays in the label text.
- `\S+` takes trailing punctuation, such as `)` or `.`, into the link.
- `replace` removes every copy of the URL. It can still leave a new copy
  formed from the text around a removed one, so the model does not claim that
  the label is free of the URL.

Whitespace is Python's: `\s` in a `str` pattern and `str.strip()` both use the
Unicode whitespace set, and `Text.IsSpace` lists it in full.

meal_plan_app.py renders the plan line by line; it does not parse it into day
or meal records.

## Model

| member | source | states |
|---|---|---|
| RequestGuard.Guard | meal_plan_app.py:63-69 | warning exactly when the grocery input is all whitespace, whatever the key; error exactly when the input has a non-whitespace character and the key is missing or empty; generation exactly when both are present |
| MealPlanPdf.Pdf.AddMealPlan | meal_plan_app.py:79-96 | appends exactly the cells `PlanCells` gives for the lines of the text, from the colour in force before; leaves the style regular and the colour as `ColorAfter` says |
| MealPlanPdf.Pdf.EmitLine | meal_plan_app.py:83-96 | one loop iteration: appends `LineCells` for the line; afterwards the style is regular, and the colour is black if the line held a URL and unchanged otherwise |
| MealPlanPdf.Pdf.constructor | meal_plan_app.py:101 | a new PDF has no cells, black text and regular style |
| MealPlanPdf.RenderMealPlan | meal_plan_app.py:101-103 | the cells of a fresh PDF after `add_meal_plan` are `PlanCells` of the text's lines starting from black |
| MealPlanPdf.PlanCellsAppend | meal_plan_app.py:82-96 | cells come in line order: the cells of `a + b` are the cells of `a` followed by those of `b` |
| MealPlanPdf.ColorAfterAppend | meal_plan_app.py:87-96 | the colour after `a + b` is the colour `b` leaves when started from the colour `a` leaves |
| MealPlanPdf.LineCells | meal_plan_app.py:83-96 | the cells one line yields: one or two, the last a link exactly when the line holds a URL, and two only for a URL line |
| MealPlanPdf.ColorAfter | meal_plan_app.py:87-94 | the text colour after the lines is either the starting colour or black |
| MealPlanPdf.PlanCells | meal_plan_app.py:82-96 | the cells of the loop over the lines: every line yields at least one cell and at most two |
| MealPlanPdf.RenderedPlainCellsBlack | meal_plan_app.py:87-96 | in a plan rendered from black text, the colour stays black and every cell that is not a link is drawn in black |
| MealPlanPdf.TextCellCount | meal_plan_app.py:81-96 | a text with n newlines yields between n + 1 and 2(n + 1) cells, so empty lines also yield a cell |
| MealPlanPdf.ColorAfterUrlLine | meal_plan_app.py:87-96 | after the loop the colour is black if any line held a URL (with `UrlFreePlanVerbatim`: the starting colour otherwise) |
| MealPlanPdf.UrlFreePlanVerbatim | meal_plan_app.py:95-96 | lines without a URL yield one regular cell each, holding the line unchanged, in the current colour |
| MealPlanPdf.LinkCellsExactlyStyled | meal_plan_app.py:87-94 | from a non-blue start, a cell is blue iff it is underlined iff it has a link; the others are regular; a link cell shows its own target, which is a URL |
| MealPlanPdf.UrlLineCells | meal_plan_app.py:83-94 | a URL line yields the link cell for the leftmost match, preceded by the label cell `display + ":"` exactly when the display text is non-empty |
| MealPlanPdf.DisplayText | meal_plan_app.py:86 | the display text never begins or ends with `:` or a space |
| MealPlanPdf.DisplayKeepsTextBeforeUrl | meal_plan_app.py:83-86 | no copy of the URL starts before the leftmost match, so removal keeps the text before it, drops it, and goes on with the rest |
| MealPlanPdf.DisplayOfSingleUrl | meal_plan_app.py:83-86 | when the URL occurs once, the display text is the line with the URL cut out, stripped of `:` and spaces |
| Url.FindUrl | meal_plan_app.py:83 | the span is the leftmost match of `https?://\S+`: scheme, a non-empty whitespace-free tail, followed by whitespace or the end; None exactly when nothing matches |
| Url.FindUrlFrom | meal_plan_app.py:83 | the leftmost match at or after a given index, or none there |
| Url.FindUrlIsTheLeftmostMatch | meal_plan_app.py:83 | converse: the leftmost match is what the search returns |
| Url.MatchAt | meal_plan_app.py:83 | the pattern tried at one index: its end, which is the only end a match there can have |
| Url.MatchEnd | meal_plan_app.py:83 | a match at an index begins with the scheme found there and ends where the greedy run ends |
| Url.MatchAtComplete | meal_plan_app.py:83 | every match at an index is the one `MatchAt` computes |
| Url.SchemeLength | meal_plan_app.py:83 | `https?://` tried at an index: 8 for "https://", 7 for "http://", 0 when neither is there |
| Url.RunEnd | meal_plan_app.py:83 | greedy `\S*`: a whitespace-free run ending at whitespace or at the end of the line |
| Url.RunEndUnique | meal_plan_app.py:83 | the greedy run's end is the only such end |
| Url.UrlCopyStartsMatch | meal_plan_app.py:83-86 | a copy of a URL inside a line is itself where a match starts |
| Text.Split | meal_plan_app.py:81 | `split("\n")` always yields at least one piece |
| Text.SplitCount | meal_plan_app.py:81 | `split("\n")` yields one piece more than there are newlines |
| Text.SplitPiecesFree | meal_plan_app.py:81 | no piece contains the separator |
| Text.JoinSplit | meal_plan_app.py:81 | joining the pieces with the separator gives back the text |
| Text.SplitJoin | meal_plan_app.py:81 | splitting a join of separator-free pieces gives back the pieces |
| Text.SplitPeel | meal_plan_app.py:81 | a separator-free piece followed by the separator is split off first |
| Text.SplitWhole | meal_plan_app.py:81 | a separator-free text is one piece |
| Text.StripStart | meal_plan_app.py:86 | the leading run of stripped characters is maximal |
| Text.StripEnd | meal_plan_app.py:86 | the trailing run of stripped characters is maximal |
| Text.Strip | meal_plan_app.py:86 | the result is the text minus a leading and a trailing run of stripped characters; it is empty iff every character is stripped, and otherwise starts and ends with a kept character |
| Text.StripIdempotent | meal_plan_app.py:86 | stripping twice is stripping once |
| Text.ReplaceAll | meal_plan_app.py:86 | removing occurrences never lengthens the text |
| Text.ReplaceAllDropsFirst | meal_plan_app.py:86 | `replace` keeps the text before the first occurrence, deletes that occurrence, and goes on right after it |
| Text.ReplaceAllRemovesWholeCopies | meal_plan_app.py:86 | the deleted text is `s.count(pat)` whole copies of the pattern |
| Text.ReplaceAllKeepsPrefix | meal_plan_app.py:86 | a prefix where no occurrence starts is kept verbatim |
| Text.ReplaceAllUnchanged | meal_plan_app.py:86 | with no occurrence, nothing is removed |
| PlanExamples.ExampleRecipeLine | meal_plan_app.py:83-92 | `Lunch: Wrap - https://a.io/r` yields the label `Lunch: Wrap -:` and the link cell for `https://a.io/r` |
| PlanExamples.ExampleDayHeading | meal_plan_app.py:81-96 | `Monday:\n` yields two plain cells, the second one empty |

## Left out

- The Streamlit interface is not modelled: title, text areas, button, spinner, sidebar and download button (meal_plan_app.py:56-62, 70, 110-122). The guard takes the button's inputs as parameters.
- The text-generation call, its prompt and its error-string fallback are not modelled (meal_plan_app.py:20-51). It is a remote, nondeterministic service, so the plan text is an arbitrary input.
- The API key is not read from the app's secrets (meal_plan_app.py:15). It is a parameter of the guard.
- RequestGuard.Guard: models the key as an optional string and takes only `None` and `""` as falsy. A non-string secret value is not modelled.
- The NFKD normalisation and ASCII filtering are not modelled (meal_plan_app.py:99). They depend on Unicode decomposition tables. `RenderMealPlan` takes the already-cleaned text.
- The PDF library's internals are not modelled. This covers the header's title cell that `add_page` draws, page breaks, fonts, sizes, cell widths and heights, line breaks, and `output` to the byte buffer (meal_plan_app.py:74-77, 102, 105-108). Only the emitted cells, the text colour and the font style are kept.
