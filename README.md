# Recipe generator: response parser and request lifecycle

A Dafny model of the logic inside `generateRecipe` in the recipe-generator React
component `Home` (src/Home.js). It covers three parts:

- **The response parser** (src/Home.js:36-51). It works in these steps:
  1. Trim the completion text.
  2. Cut it before the last `"Calories per serving:"` and trim again.
  3. Split it into lines. Line 0 is the heading.
  4. Find the first lines that contain `"ingredients:"` and `"instructions:"` in
     lower case.
  5. Slice the ingredient and instruction lists out of the lines.
  6. Read the calorie count from the first match of `/:\s*(\d+)\s*calorie/` over the
     whole trimmed text.

  This is a pure function, `RecipeParser.ParseRecipe`, that returns a `Result`. The
  `TypeError` the source raises when `match` returns `null` is the failure
  `NoCaloriesMatch`.
- **The JavaScript built-ins** the parser uses, stated over sequences (module
  `JsBuiltins`): `trim`, `lastIndexOf`, `slice` with negative and clamped bounds,
  `split`, `findIndex` with its -1, `includes`, `toLowerCase` and `parseInt`. The
  regular expression gets a hand-written matcher (module `CaloriesRegex`). Its
  greedy result is proved to be the only match at each start position: `\s` and `\d`
  are disjoint classes, so backtracking cannot choose differently.
- **The component state and the request lifecycle** (src/Home.js:7-12, 21-62), as
  the class `Requester.RecipeRequester`.
  - `isGenerating` is set before the request.
  - The four recipe fields are replaced together when the parse succeeds.
  - Nothing changes when the request or the parse fails.
  - `isGenerating` is cleared in `finally`.
  - `CurrentView` is the render's three-way branch (src/Home.js:99, 128).

The completion request is not modelled. Its outcome is a parameter of type
`Option<string>`: `None` stands for a failed request or a response without
`data.choices[0].message.content`, and `Some(text)` for the completion text.

`caloriesText` starts as the empty string and is later set to a number. The model
holds it as `Option<nat>`, where `None` is the initial empty string.

Files: `wrappers.dfy` (`Option`, `Result`), `js_builtins.dfy`, `calories_regex.dfy`,
`recipe_parser.dfy`, `requester.dfy`.

## Model

| member | source | states |
|---|---|---|
| JsBuiltins.Trim | src/Home.js:37 | the trimmed text neither starts nor ends with white space, and is no longer than the input |
| JsBuiltins.TrimSurrounded | src/Home.js:37 | what `trim` keeps sits in the input right after the leading white space, with only white space on either side of it |
| JsBuiltins.TrimUnique | src/Home.js:37 | any string that sits in the input between white space and has no white space at either end is the trimmed text |
| JsBuiltins.TrimIdempotent | src/Home.js:39 | trimming an already trimmed text changes nothing |
| JsBuiltins.TrimStartCutsSpace | src/Home.js:37 | trimming the start keeps a suffix and cuts off only white space |
| JsBuiltins.TrimEndCutsSpace | src/Home.js:37 | trimming the end keeps a prefix and cuts off only white space |
| JsBuiltins.TrimStartDropsLeadingSpace | src/Home.js:37 | white space up to a non-space character is exactly what trimming the start removes |
| JsBuiltins.TrimEndDropsTrailingSpace | src/Home.js:37 | white space after a non-space character is exactly what trimming the end removes |
| JsBuiltins.LastIndexOf | src/Home.js:38 | the result is -1 or a position where the phrase occurs, and the phrase occurs at no later position |
| JsBuiltins.RelativeIndex | src/Home.js:39 | a bound within the length is kept, a negative bound counts back from the length, and a bound outside is clamped to 0 or to the length |
| JsBuiltins.Slice | src/Home.js:39 | `slice(start, end)`: both bounds are resolved relative to the length (a negative bound counts from the end, any bound is clamped to the length); the result is the elements between the resolved bounds, and empty when the resolved end is not after the resolved start; in particular everything from start for in-range bounds, empty when start is at or past the end, and with end -1 everything from start except the last element |
| JsBuiltins.SliceFrom | src/Home.js:47 | `slice(start)`: the elements from start on, and empty when start is past the end |
| JsBuiltins.Split | src/Home.js:40 | at least one piece; no piece contains the separator; the pieces joined with the separator give the input back |
| JsBuiltins.JoinFirstSeparator | src/Home.js:40 | in pieces joined with a separator that the first piece lacks, the first separator ends the first piece and the rest is the join of the other pieces |
| JsBuiltins.SplitJoin | src/Home.js:40 | splitting undoes joining pieces that do not contain the separator |
| JsBuiltins.SplitFirstPiece | src/Home.js:42 | the first piece is the input up to its first separator, or all of it |
| JsBuiltins.FindIndex | src/Home.js:43-44 | the result is -1 or an index whose element satisfies the predicate, and no earlier element (no element at all, for -1) satisfies it |
| JsBuiltins.FindIndexIsFirst | src/Home.js:43-44 | the first satisfying index, or -1 when there is none, is the only answer |
| JsBuiltins.ToLower | src/Home.js:43-44 | lower-casing keeps the length and maps each character through ASCII lower-casing |
| JsBuiltins.LowerChar | src/Home.js:43-44 | the result is never an ASCII capital; it is a lower-case letter exactly when the input is a letter of either case; only capitals change, and a capital keeps its position in the alphabet |
| JsBuiltins.OccursInLowerIff | src/Home.js:43-44 | a lower-case word occurs in the lower-cased line at a position exactly when it occurs there ignoring ASCII case |
| JsBuiltins.IncludesInLowerIff | src/Home.js:43-44 | `line.toLowerCase().includes(word)` holds exactly when some window of the line equals the word ignoring ASCII case |
| JsBuiltins.OccursAtIsSitsAt | src/Home.js:38-44 | the whole-slice comparison that `lastIndexOf` and `includes` make is the element-by-element occurrence used in contracts |
| JsBuiltins.ParseIntOfDecimalString | src/Home.js:51 | `parseInt` reads back the decimal numeral of every natural number |
| JsBuiltins.ParseInt | src/Home.js:51 | the value of a digit string is below ten to the power of its length, and is zero exactly when every digit is `0` |
| JsBuiltins.ParseIntSkipsLeadingZero | src/Home.js:51 | a leading zero does not change what `parseInt` reads |
| CaloriesRegex.LiteralAtIsSitsAt | src/Home.js:49 | matching the literals of the pattern character by character is the element-by-element occurrence used in contracts |
| CaloriesRegex.MatchAt | src/Home.js:49 | a group reported at a position is a non-empty run of decimal digits |
| CaloriesRegex.MatchAtComplete | src/Home.js:49 | every way the pattern can match at a position captures the group the greedy matcher reports |
| CaloriesRegex.MatchAtSound | src/Home.js:49 | the group the greedy matcher reports comes from a real match of `:`, white space, digits, white space, `calorie` |
| CaloriesRegex.MatchAtIffPattern | src/Home.js:49 | the matcher reports a group at a position exactly when the pattern matches there |
| CaloriesRegex.FirstMatchFrom | src/Home.js:50 | the reported match is at the first position, from the start given on, where the pattern matches |
| CaloriesRegex.Match | src/Home.js:50 | the captured group of a match is a non-empty run of digits |
| CaloriesRegex.MatchIsLeftmost | src/Home.js:49-50 | `match` reports the leftmost position where the pattern matches, with the digits matched there |
| CaloriesRegex.NoMatchIffNoPattern | src/Home.js:50 | `match` yields `null` exactly when the pattern matches nowhere |
| RecipeParser.ParseRecipe | src/Home.js:37-51 | the parse fails exactly when the calorie pattern matches nowhere in the trimmed text; on success the heading is a prefix of the body and holds no line break |
| RecipeParser.Body | src/Home.js:37-39 | the body is no longer than the trimmed text and has no white space at either end |
| RecipeParser.Lines | src/Home.js:40 | there is at least one line, no line holds a line break, and the lines rejoin to the body |
| RecipeParser.Ingredients | src/Home.js:43-46 | a non-empty ingredient list sits in the lines right after the first ingredients line, and none of its lines is an instructions line |
| RecipeParser.Instructions | src/Home.js:44-47 | the instructions are a suffix of the lines: all of them, or the lines after an instructions line |
| RecipeParser.SectionsAreLines | src/Home.js:46-47 | every ingredient and every instruction is one of the lines |
| RecipeParser.MarkerLinesIgnoreCase | src/Home.js:43-44 | a line is an ingredients (instructions) line exactly when it contains `ingredients:` (`instructions:`) ignoring ASCII case |
| RecipeParser.ParsedSections | src/Home.js:40-47 | in a successful parse, with i and j the first ingredients and instructions lines of the body (-1 when missing): with j found, the ingredients are the lines strictly between i and j (none unless i < j) and the instructions the lines after j; with no instructions line, the ingredients run from after i to before the last line and the instructions are every line |
| RecipeParser.BodyEndsAtLastPhrase | src/Home.js:37-39 | with the phrase present, the body is the trimmed text before its last occurrence, trimmed again |
| RecipeParser.BodyWithoutPhrase | src/Home.js:38-39 | with the phrase absent, the body is the trimmed text without its last character, trimmed again |
| RecipeParser.HeadingIsFirstLine | src/Home.js:42 | the heading is the body up to its first line break |
| RecipeParser.IngredientsBetweenMarkers | src/Home.js:43-46 | ingredients are the lines strictly between the two marker lines, or none when the ingredients marker is not first; a missing marker acts as -1 |
| RecipeParser.InstructionsAfterMarker | src/Home.js:44-47 | with the first instructions line at j, the instructions are the lines after j; with no instructions line (j = -1), they are all the lines |
| RecipeParser.InstructionsWithoutMarker | src/Home.js:44-47 | with no instructions line, `slice(-1 + 1)` keeps every line |
| RecipeParser.InstructionsAfterFoundMarker | src/Home.js:44-47 | with the first instructions line at j, the instructions are the lines from j + 1 on |
| RecipeParser.ParseFailsIffNoCaloriesMatch | src/Home.js:49-51 | the parse fails exactly when the calorie pattern matches nowhere in the trimmed text |
| RecipeParser.CaloriesFromFirstMatch | src/Home.js:49-51 | the calorie count is the value of the digits of the leftmost match over the whole trimmed text |
| RecipeParser.ParseIgnoresSurroundingSpace | src/Home.js:37 | white space around the response does not change the outcome |
| Requester.Outcome | src/Home.js:23-51 | the try block yields a recipe exactly when a completion text arrived and parsing it succeeded, and that recipe is the parse of the text |
| Requester.AfterResponse | src/Home.js:53-58 | when the response arrived and parsed, the recipe fields become the parsed recipe's, with the calorie count set and a heading without line break; otherwise they are the prior fields |
| Requester.AfterResponseAllOrNothing | src/Home.js:53-58 | after a response, the recipe fields are either the prior ones or the ones any prior state would have received |
| Requester.AfterResponseIdempotent | src/Home.js:53-58 | applying the same response twice is applying it once |
| Requester.RecipeRequester.constructor | src/Home.js:7-12 | empty product text and recipe fields, not generating, the placeholder shown |
| Requester.RecipeRequester.SetProductsText | src/Home.js:75 | only the product text changes |
| Requester.RecipeRequester.BeginRequest | src/Home.js:22 | the request is pending and the loading view shows; nothing else changes |
| Requester.RecipeRequester.CompleteRequest | src/Home.js:53-61 | with a parsed recipe, all four recipe fields are replaced by it at once; without one (failed request or parse), all four stay as they were; the product text is kept and `isGenerating` is false on every path |
| Requester.RecipeRequester.GenerateRecipe | src/Home.js:21-62 | afterwards nothing is loading, the product text is kept, and the recipe fields are what `AfterResponse` gives for the prior fields and the response |
| Requester.RecipeRequester.CurrentView | src/Home.js:99-128 | loading exactly while generating; the result card exactly when not generating and both lists are non-empty |

## Left out

- The OpenAI client, `Configuration` and `createChatCompletion` (src/Home.js:2, 15-19, 24-34). They are a network call into a foreign library, so the model takes their outcome as an `Option<string>` parameter.
- The API key from `process.env` (src/Home.js:16), the model name, `temperature` and `max_tokens` (src/Home.js:25, 32-33). They are request configuration with no logic.
- The prompt text that interpolates `productsText` (src/Home.js:29). The model keeps `productsText` as a field but does not build the request from it.
- `async`/`await`. The request is one atomic step between `BeginRequest` and `CompleteRequest`; interleaved clicks are not modelled.
- `console.error` in the `catch` clause (src/Home.js:58): logging only.
- The JSX, inline styles, `ReactiveButton`, `ContentLoader` and the image (src/Home.js:64-193). Only the render's branch condition is modelled.
- `showImage` (src/Home.js:13), which is never updated.
- JsBuiltins.ToLower: lower-cases ASCII letters only, not the full Unicode case mapping of `toLowerCase`. The markers are ASCII, but a non-ASCII capital that lower-cases to ASCII is not handled as JavaScript would.
- JsBuiltins.ParseInt: returns the exact value of the digit string. JavaScript's number is a double: beyond 2^53 the value is rounded, and beyond about 309 digits it becomes `Infinity`. The model captures neither.
- A general regular-expression engine. Only the one fixed pattern of src/Home.js:49 is modelled.
- Strings are sequences of code points, not UTF-16 code units. The parsed markers and digits are all in the Basic Multilingual Plane, so searching, splitting and matching agree. They differ in one place: without the calorie phrase, `slice(0, -1)` (src/Home.js:39) removes one code unit, so a text ending in a character outside the plane (an emoji) keeps a lone high surrogate in JavaScript, while the model removes the whole character. Dafny's `char` cannot hold a lone surrogate.
