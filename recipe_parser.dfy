/** The parsing block of `generateRecipe` (src/Home.js:36-51): from the completion
    text to a heading, an ingredient list, an instruction list and a calorie count,
    or the failure that reading group 1 of a `null` match raises. */
module RecipeParser {
  import opened Wrappers
  import opened JsBuiltins
  import opened CaloriesRegex

  /** The four recipe fields a successful parse produces. */
  datatype Recipe = Recipe(heading: string, ingredients: seq<string>, instructions: seq<string>, calories: nat)

  /** The only way the parse can throw: the calorie pattern matches nowhere, `match`
      returns `null` and indexing it raises a TypeError. */
  datatype ParseError = NoCaloriesMatch

  /** The phrase at whose last occurrence the recipe body ends (case-sensitive). */
  const CaloriesPhrase: string := "Calories per serving:"

  /** The section markers, looked for in lower-cased lines. */
  const IngredientsMarker: string := "ingredients:"
  const InstructionsMarker: string := "instructions:"

  /** A line that, lower-cased, contains "ingredients:". */
  predicate IsIngredientsLine(line: string) {
    Includes(ToLower(line), IngredientsMarker)
  }

  /** A line that, lower-cased, contains "instructions:". */
  predicate IsInstructionsLine(line: string) {
    Includes(ToLower(line), InstructionsMarker)
  }

  /** The recipe body: the trimmed response cut before the last "Calories per
      serving:" and trimmed again. Without the phrase `lastIndexOf` gives -1, and
      `slice(0, -1)` drops the last character. */
  function Body(content: string): (body: string)
    ensures |body| <= |Trim(content)|
    ensures body == [] || (!IsSpace(body[0]) && !IsSpace(body[|body| - 1]))
  {
    var recipe := Trim(content);
    Trim(Slice(recipe, 0, LastIndexOf(recipe, CaloriesPhrase)))
  }

  /** The lines of the recipe body. */
  function Lines(content: string): (lines: seq<string>)
    ensures |lines| >= 1
    ensures forall k | 0 <= k < |lines| :: '\n' !in lines[k]
    ensures Join(lines, '\n') == Body(content)
  {
    Split(Body(content), '\n')
  }

  /** The lines between the markers: `lines.slice(ingredientsStart + 1, instructionsStart)`. */
  function Ingredients(lines: seq<string>): (r: seq<string>)
    ensures r != [] ==> SitsAt(lines, r, FindIndex(lines, IsIngredientsLine) + 1)
    ensures forall k | 0 <= k < |r| :: !IsInstructionsLine(r[k])
  {
    Slice(lines, FindIndex(lines, IsIngredientsLine) + 1, FindIndex(lines, IsInstructionsLine))
  }

  /** The lines after the instructions marker: `lines.slice(instructionsStart + 1)`. */
  function Instructions(lines: seq<string>): (r: seq<string>)
    ensures |r| <= |lines| && SitsAt(lines, r, |lines| - |r|)
    ensures r == lines || IsInstructionsLine(lines[|lines| - |r| - 1])
  {
    SliceFrom(lines, FindIndex(lines, IsInstructionsLine) + 1)
  }

  /** Parses a completion text as src/Home.js:37-51 does. */
  function ParseRecipe(content: string): (r: Result<Recipe, ParseError>)
    ensures r.Failure? <==> Match(Trim(content)).None?
    ensures r.Success? ==> r.value.heading <= Body(content) && '\n' !in r.value.heading
  {
    var lines := Lines(content);
    match Match(Trim(content))
    case None => Failure(NoCaloriesMatch)
    case Some(m) =>
      SplitFirstPiece(Body(content), '\n');
      Success(Recipe(lines[0], Ingredients(lines), Instructions(lines), ParseInt(m.group)))
  }

  /** Both sections are made of lines of the body. */
  lemma SectionsAreLines(lines: seq<string>)
    ensures forall line | line in Ingredients(lines) :: line in lines
    ensures forall line | line in Instructions(lines) :: line in lines
  {
    var r := Ingredients(lines);
    forall line | line in r ensures line in lines {
      var a := FindIndex(lines, IsIngredientsLine) + 1;
      var k :| 0 <= k < |r| && r[k] == line;
      assert lines[a + k] == r[k];
    }
    var t := Instructions(lines);
    forall line | line in t ensures line in lines {
      var k :| 0 <= k < |t| && t[k] == line;
      assert lines[|lines| - |t| + k] == t[k];
    }
  }

  // ---------------------------------------------------------------------------
  // The body and its lines

  /** When the phrase occurs, the body is the trimmed text before its last
      occurrence, trimmed. */
  lemma BodyEndsAtLastPhrase(content: string, k: int)
    requires OccursAt(Trim(content), CaloriesPhrase, k)
    requires forall i | k < i :: !OccursAt(Trim(content), CaloriesPhrase, i)
    ensures Body(content) == Trim(Trim(content)[..k])
  {
    var recipe := Trim(content);
    var last := LastIndexOf(recipe, CaloriesPhrase);
    assert last == k;
    assert Slice(recipe, 0, last) == recipe[..k];
  }

  /** When the phrase does not occur, the body is the trimmed text without its last
      character, trimmed. */
  lemma BodyWithoutPhrase(content: string)
    requires forall i :: !OccursAt(Trim(content), CaloriesPhrase, i)
    ensures var recipe := Trim(content);
      Body(content) == if recipe == [] then [] else Trim(recipe[..|recipe| - 1])
  {
    var recipe := Trim(content);
    var last := LastIndexOf(recipe, CaloriesPhrase);
    assert last == -1;
  }

  /** The heading is the body up to its first line break (all of it when it has none). */
  lemma HeadingIsFirstLine(content: string)
    requires ParseRecipe(content).Success?
    ensures var heading, body := ParseRecipe(content).value.heading, Body(content);
      heading <= body && '\n' !in heading && (|heading| == |body| || body[|heading|] == '\n')
  {
    SplitFirstPiece(Body(content), '\n');
  }

  // ---------------------------------------------------------------------------
  // Sections

  /** A line marks the ingredients exactly when it holds "ingredients:" in any mix
      of ASCII cases, and likewise for the instructions. */
  lemma MarkerLinesIgnoreCase(line: string)
    ensures IsIngredientsLine(line) <==>
      exists i | 0 <= i <= |line| - |IngredientsMarker| :: OccursAtIgnoringCase(line, IngredientsMarker, i)
    ensures IsInstructionsLine(line) <==>
      exists i | 0 <= i <= |line| - |InstructionsMarker| :: OccursAtIgnoringCase(line, InstructionsMarker, i)
  {
    IncludesInLowerIff(line, IngredientsMarker);
    IncludesInLowerIff(line, InstructionsMarker);
  }

  /** The ingredients are the lines strictly between the first "ingredients:" line
      and the first "instructions:" line, and none when the former is not before the
      latter. A missing marker acts as index -1: a missing "ingredients:" line starts
      the list at line 0, a missing "instructions:" line ends it before the last line. */
  lemma IngredientsBetweenMarkers(lines: seq<string>, i: int, j: int)
    requires IsFirstIndex(lines, IsIngredientsLine, i)
    requires IsFirstIndex(lines, IsInstructionsLine, j)
    ensures 0 <= j ==> Ingredients(lines) == if i < j then lines[i + 1..j] else []
    ensures j == -1 ==> Ingredients(lines) == if i + 1 < |lines| - 1 then lines[i + 1..|lines| - 1] else []
  {
    FindIndexIsFirst(lines, IsIngredientsLine, i);
    FindIndexIsFirst(lines, IsInstructionsLine, j);
  }

  /** Without an "instructions:" line, `slice(-1 + 1)` keeps every line. */
  lemma InstructionsWithoutMarker(lines: seq<string>)
    requires IsFirstIndex(lines, IsInstructionsLine, -1)
    ensures Instructions(lines) == lines
  {
    FindIndexIsFirst(lines, IsInstructionsLine, -1);
    var r := Instructions(lines);
    forall k | 0 <= k < |r| ensures r[k] == lines[k] {
      assert lines[0 + k] == r[k];
    }
  }

  /** With an "instructions:" line at `j`, the instructions are the lines after it. */
  lemma InstructionsAfterFoundMarker(lines: seq<string>, j: nat)
    requires IsFirstIndex(lines, IsInstructionsLine, j)
    ensures Instructions(lines) == lines[j + 1..]
  {
    FindIndexIsFirst(lines, IsInstructionsLine, j);
    var r := Instructions(lines);
    forall k | 0 <= k < |r| ensures r[k] == lines[j + 1..][k] {
      assert lines[j + 1 + k] == r[k];
    }
  }

  /** The instructions are the lines after the first "instructions:" line, and all
      lines, the heading included, when there is no such line. */
  lemma InstructionsAfterMarker(lines: seq<string>, j: int)
    requires IsFirstIndex(lines, IsInstructionsLine, j)
    ensures j == -1 ==> Instructions(lines) == lines
    ensures 0 <= j ==> Instructions(lines) == lines[j + 1..]
  {
    if j == -1 {
      InstructionsWithoutMarker(lines);
    } else {
      InstructionsAfterFoundMarker(lines, j);
    }
  }

  /** The parsed recipe's sections follow the marker rules: with `i` and `j` the
      first "ingredients:" and "instructions:" lines of the body (-1 when missing),
      the ingredients are the lines strictly between them and the instructions the
      lines after `j`, or, without an "instructions:" line, the lines from after `i`
      up to the last one, exclusive, and every line. */
  lemma ParsedSections(content: string, recipe: Recipe, lines: seq<string>, i: int, j: int)
    requires ParseRecipe(content) == Success(recipe)
    requires lines == Lines(content)
    requires IsFirstIndex(lines, IsIngredientsLine, i)
    requires IsFirstIndex(lines, IsInstructionsLine, j)
    ensures 0 <= j ==>
      recipe.ingredients == (if i < j then lines[i + 1..j] else []) && recipe.instructions == lines[j + 1..]
    ensures j == -1 ==>
      recipe.ingredients == (if i + 1 < |lines| - 1 then lines[i + 1..|lines| - 1] else []) &&
      recipe.instructions == lines
  {
    SectionsOfLines(content);
    IngredientsBetweenMarkers(lines, i, j);
    InstructionsAfterMarker(lines, j);
  }

  /** The parsed sections are those of the body's lines. */
  lemma SectionsOfLines(content: string)
    requires ParseRecipe(content).Success?
    ensures ParseRecipe(content).value.ingredients == Ingredients(Lines(content))
    ensures ParseRecipe(content).value.instructions == Instructions(Lines(content))
  {
  }

  // ---------------------------------------------------------------------------
  // Calories and failure

  /** The parse fails exactly when the calorie pattern matches nowhere in the
      trimmed response; the markers and the phrase never make it fail. */
  lemma ParseFailsIffNoCaloriesMatch(content: string)
    ensures ParseRecipe(content).Failure? <==>
      forall p: nat, w1: nat, n: nat, w2: nat :: !PatternAt(Trim(content), p, w1, n, w2)
  {
    NoMatchIffNoPattern(Trim(content));
  }

  /** The calorie count is the value of the digits captured by the leftmost match
      in the whole trimmed response, the body included. */
  lemma CaloriesFromFirstMatch(content: string, p: nat, w1: nat, n: nat, w2: nat)
    requires PatternAt(Trim(content), p, w1, n, w2)
    requires forall q: nat, v1: nat, m: nat, v2: nat | q < p :: !PatternAt(Trim(content), q, v1, m, v2)
    ensures ParseRecipe(content).Success?
    ensures var group := Trim(content)[p + 1 + w1..p + 1 + w1 + n];
      |group| > 0 && AllDigits(group) && ParseRecipe(content).value.calories == ParseInt(group)
  {
    var recipe := Trim(content);
    var group := recipe[p + 1 + w1..p + 1 + w1 + n];
    assert Match(recipe) == Some(RegexMatch(p, group)) by {
      MatchIsLeftmost(recipe, p, w1, n, w2);
    }
  }

  /** White space around the response does not change the outcome. */
  lemma ParseIgnoresSurroundingSpace(content: string)
    ensures ParseRecipe(Trim(content)) == ParseRecipe(content)
  {
    TrimIdempotent(content);
  }
}
