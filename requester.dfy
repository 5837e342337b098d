/** The state of the `Home` component and the lifecycle of `generateRecipe`
    (src/Home.js:7-13, 21-62) together with the choice the render makes between
    the loading skeleton, the result card and the placeholder image
    (src/Home.js:99, 128).

    The completion request is not modelled: its outcome is a parameter, `None` for
    a transport failure (or a response without `data.choices[0].message.content`)
    and `Some(text)` for the completion text. */
module Requester {
  import opened Wrappers
  import opened RecipeParser

  /** The three branches of the render. */
  datatype View = Loading | ResultCard | Placeholder

  /** The four recipe fields as the component holds them. `caloriesText` starts as
      the empty string and is later set to a number: `None` stands for the former. */
  datatype Shown = Shown(heading: string, ingredients: seq<string>, instructions: seq<string>, calories: Option<nat>)

  /** The fields a parsed recipe is shown with: `caloriesText` becomes the number. */
  function ShownOf(r: Recipe): Shown {
    Shown(r.heading, r.ingredients, r.instructions, Some(r.calories))
  }

  /** What the `try` block of src/Home.js:23-56 arrives at: the parsed recipe, or
      `None` when a step throws, because the request failed or the calorie pattern
      matches nowhere. */
  function Outcome(response: Option<string>): (outcome: Option<Recipe>)
    ensures outcome.Some? <==> response.Some? && ParseRecipe(response.value).Success?
    ensures outcome.Some? ==> outcome.value == ParseRecipe(response.value).value
  {
    match response
    case None => None
    case Some(text) =>
      match ParseRecipe(text)
      case Failure(_) => None
      case Success(r) => Some(r)
  }

  /** What the recipe fields hold after a completed request: the parsed recipe when
      the request and the parse succeed, the prior fields otherwise. */
  function AfterResponse(prior: Shown, response: Option<string>): (next: Shown)
    ensures response.Some? && ParseRecipe(response.value).Success? ==>
      next == ShownOf(ParseRecipe(response.value).value)
    ensures !(response.Some? && ParseRecipe(response.value).Success?) ==> next == prior
    ensures response.Some? && ParseRecipe(response.value).Success? ==>
      next.calories.Some? && '\n' !in next.heading
  {
    match Outcome(response)
    case None => prior
    case Some(r) => ShownOf(r)
  }

  /** The update is all or nothing: the new fields are either the prior ones,
      untouched, or the ones any other prior state would also have been replaced by. */
  lemma AfterResponseAllOrNothing(prior: Shown, other: Shown, response: Option<string>)
    ensures AfterResponse(prior, response) == prior ||
            AfterResponse(prior, response) == AfterResponse(other, response)
  {
  }

  /** Submitting again with a response identical to the last one leaves the recipe
      fields as they are. */
  lemma AfterResponseIdempotent(prior: Shown, response: Option<string>)
    ensures AfterResponse(AfterResponse(prior, response), response) == AfterResponse(prior, response)
  {
  }

  class RecipeRequester {
    var productsText: string
    var ingredients: seq<string>
    var instructions: seq<string>
    var caloriesText: Option<nat>
    var headingText: string
    var isGenerating: bool

    /** The four recipe fields together. */
    function Fields(): Shown
      reads this
    {
      Shown(headingText, ingredients, instructions, caloriesText)
    }

    /** The initial state of src/Home.js:7-12. */
    constructor ()
      ensures productsText == "" && !isGenerating
      ensures Fields() == Shown("", [], [], None)
      ensures CurrentView() == Placeholder
    {
      productsText := "";
      ingredients := [];
      instructions := [];
      caloriesText := None;
      headingText := "";
      isGenerating := false;
    }

    /** The input's change handler (src/Home.js:75). */
    method SetProductsText(text: string)
      modifies this
      ensures productsText == text
      ensures Fields() == old(Fields()) && isGenerating == old(isGenerating)
    {
      productsText := text;
    }

    /** The start of `generateRecipe` (src/Home.js:22): the request is pending. */
    method BeginRequest()
      modifies this
      ensures isGenerating
      ensures CurrentView() == Loading
      ensures Fields() == old(Fields()) && productsText == old(productsText)
    {
      isGenerating := true;
    }

    /** The end of `generateRecipe` once the `try` block has arrived at `outcome`
        (src/Home.js:53-61): a parsed recipe replaces all four fields at once, a
        throw is caught and changes none of them, and the `finally` clause clears
        `isGenerating` on every path. */
    method CompleteRequest(outcome: Option<Recipe>)
      modifies this
      ensures !isGenerating
      ensures productsText == old(productsText)
      ensures outcome.Some? ==> Fields() == ShownOf(outcome.value)
      ensures outcome.None? ==> Fields() == old(Fields())
    {
      if outcome.Some? {
        var r := outcome.value;
        ingredients := r.ingredients;
        instructions := r.instructions;
        caloriesText := Some(r.calories);
        headingText := r.heading;
      }
      isGenerating := false;
    }

    /** `generateRecipe` with the request's outcome given: loading while the request
        is pending, then the all-or-nothing update of `AfterResponse`. */
    method GenerateRecipe(response: Option<string>)
      modifies this
      ensures !isGenerating && CurrentView() != Loading
      ensures productsText == old(productsText)
      ensures Fields() == AfterResponse(old(Fields()), response)
    {
      BeginRequest();
      CompleteRequest(Outcome(response));
    }

    /** The render's branch (src/Home.js:99, 128): loading while a request is
        pending, whatever the fields hold; otherwise the result card when there are
        both ingredients and instructions, and the placeholder image when not. */
    function CurrentView(): (v: View)
      reads this
      ensures v == Loading <==> isGenerating
      ensures v == ResultCard <==> !isGenerating && |ingredients| > 0 && |instructions| > 0
    {
      if isGenerating then Loading
      else if |ingredients| > 0 && |instructions| > 0 then ResultCard
      else Placeholder
    }
  }
}
