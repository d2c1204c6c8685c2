/**
 * The "Generate 7-Day Meal Plan" button handler of meal_plan_app.py: a blank
 * grocery list is refused with a warning before the API key is looked at; a
 * missing or empty key is refused with an error; otherwise the plan is generated.
 */
module RequestGuard {
  import opened Wrappers
  import opened Text

  /** The three outcomes of pressing the button. */
  datatype Decision = WarnNoGroceries | ErrorNoApiKey | GeneratePlan

  /**
   * `if not grocery_input.strip(): ... elif not openai.api_key: ... else: ...`,
   * with the key configured in the app's secrets given as `apiKey` (None when
   * absent; an empty key is as falsy as a missing one).
   */
  function Guard(groceryInput: string, apiKey: Option<string>): (d: Decision)
    ensures d == WarnNoGroceries <==> forall k :: 0 <= k < |groceryInput| ==> IsSpace(groceryInput[k])
    ensures d == ErrorNoApiKey <==>
      (exists k :: 0 <= k < |groceryInput| && !IsSpace(groceryInput[k])) && (apiKey == None || apiKey == Some(""))
    ensures d == GeneratePlan <==>
      (exists k :: 0 <= k < |groceryInput| && !IsSpace(groceryInput[k])) && apiKey.Some? && apiKey.value != ""
  {
    if Strip(groceryInput, IsSpace) == [] then WarnNoGroceries
    else if apiKey.None? || apiKey.value == "" then ErrorNoApiKey
    else GeneratePlan
  }
}
