/**
 * The tab state of the recipe page: which of the three tabs is active, which
 * button is highlighted, and which panel is rendered below the buttons.
 */
module RecipePage {
  import opened Wrappers
  import opened Instructions
  import opened Nutrients

  /** One entry of `recipe.extendedIngredients`. */
  datatype Ingredient = Ingredient(id: int, original: string)

  /** The parts of a fetched recipe that the tab panels show. */
  datatype Recipe = Recipe(
    instructions: Option<string>,
    extendedIngredients: seq<Ingredient>,
    nutrition: Option<NutritionInfo>)

  /** The values `activeTab` takes; `Key` is the string the page stores. */
  datatype Tab = IngredientsTab | InstructionsTab | NutritionTab {
    function Key(): string {
      match this
      case IngredientsTab => "ingredients"
      case InstructionsTab => "instructions"
      case NutritionTab => "nutrition"
    }
  }

  /** Distinct tabs store distinct strings. */
  lemma KeysAreDistinct(t1: Tab, t2: Tab)
    ensures t1.Key() == t2.Key() <==> t1 == t2
  {
    assert "ingredients"[2] != "instructions"[2];
    assert "ingredients"[0] != "nutrition"[0];
    assert "instructions"[0] != "nutrition"[0];
  }

  /** `useState("ingredients")`. */
  const InitialTab: Tab := IngredientsTab

  /** The three buttons of the tab navigation, left to right. */
  datatype Button = IngredientsButton | CookingStepsButton | NutritionButton

  /** The string each button compares `activeTab` with to decide its highlight. */
  function HighlightKey(b: Button): string {
    match b
    case IngredientsButton => "ingredients"
    case CookingStepsButton => "instructions"
    case NutritionButton => "nutrition"
  }

  /** Whether button `b` is drawn as the selected one. */
  predicate Highlighted(active: Tab, b: Button) {
    active.Key() == HighlightKey(b)
  }

  /** The `onClick` of button `b`: `setActiveTab` with a fixed value, whatever the tab was. */
  function Click(b: Button): (t: Tab)
    ensures Highlighted(t, b)
  {
    match b
    case IngredientsButton => IngredientsTab
    case CookingStepsButton => InstructionsTab
    case NutritionButton => NutritionTab
  }

  /** The active tab after a sequence of clicks, starting from `active`. */
  function AfterClicks(active: Tab, clicks: seq<Button>): Tab
    decreases |clicks|
  {
    if clicks == [] then active else AfterClicks(Click(clicks[0]), clicks[1..])
  }

  /** Each button shows its own tab, and the buttons show distinct tabs. */
  lemma ClickIsOneToOne(b1: Button, b2: Button)
    ensures Click(b1) == Click(b2) <==> b1 == b2
    ensures Highlighted(Click(b1), b2) <==> b1 == b2
  {
  }

  /** Whatever the tab, exactly one button is highlighted, and clicking it keeps that tab. */
  lemma OneButtonHighlighted(active: Tab)
    ensures exists b :: Highlighted(active, b) && Click(b) == active
    ensures forall b1, b2 :: Highlighted(active, b1) && Highlighted(active, b2) ==> b1 == b2
  {
    match active
    case IngredientsTab => assert Highlighted(active, IngredientsButton);
    case InstructionsTab => assert Highlighted(active, CookingStepsButton);
    case NutritionTab => assert Highlighted(active, NutritionButton);
  }

  /** The state is replaced wholesale: only the last click decides the active tab. */
  lemma {:induction false} LastClickWins(active: Tab, clicks: seq<Button>)
    ensures AfterClicks(active, clicks) == if clicks == [] then active else Click(clicks[|clicks| - 1])
    decreases |clicks|
  {
    if |clicks| > 1 {
      LastClickWins(Click(clicks[0]), clicks[1..]);
      assert clicks[1..][|clicks[1..]| - 1] == clicks[|clicks| - 1];
    }
  }

  /** The content under the tab buttons. */
  datatype Panel =
    | IngredientsPanel(lines: seq<string>)
    | StepsPanel(steps: seq<string>)
    | NutritionPanel(view: NutritionView)

  /** `recipe.extendedIngredients.map((ingredient) => ingredient.original)`. */
  function IngredientLines(ingredients: seq<Ingredient>): (lines: seq<string>)
    ensures |lines| == |ingredients|
    ensures forall i | 0 <= i < |lines| :: lines[i] == ingredients[i].original
  {
    seq(|ingredients|, i requires 0 <= i < |ingredients| => ingredients[i].original)
  }

  /** The panel that belongs to each tab. */
  function PanelOf(active: Tab, recipe: Recipe): Panel {
    match active
    case IngredientsTab => IngredientsPanel(IngredientLines(recipe.extendedIngredients))
    case InstructionsTab => StepsPanel(ParseInstructions(recipe.instructions))
    case NutritionTab => NutritionPanel(RenderNutrition(recipe.nutrition))
  }

  /**
   * The tab content: three independent `activeTab === ...` conditionals, one
   * per panel. Exactly one of them holds for each tab, so exactly one panel is
   * rendered, the one belonging to the active tab.
   */
  function Panels(active: Tab, recipe: Recipe): (shown: seq<Panel>)
    ensures shown == [PanelOf(active, recipe)]
  {
    KeysAreDistinct(active, IngredientsTab);
    KeysAreDistinct(active, InstructionsTab);
    KeysAreDistinct(active, NutritionTab);
    var instructionsArray := ParseInstructions(recipe.instructions);
    var ingredients := IngredientsPanel(IngredientLines(recipe.extendedIngredients));
    var steps := StepsPanel(instructionsArray);
    var nutrition := NutritionPanel(RenderNutrition(recipe.nutrition));
    (if active.Key() == "ingredients" then [ingredients] else [])
    + (if active.Key() == "instructions" then [steps] else [])
    + (if active.Key() == "nutrition" then [nutrition] else [])
  }

  /** After any clicks the page shows one panel: the ingredients before the first click, else the last clicked button's. */
  lemma PanelAfterClicks(clicks: seq<Button>, recipe: Recipe)
    ensures var shown := Panels(AfterClicks(InitialTab, clicks), recipe);
      && |shown| == 1
      && (clicks == [] ==> shown == [IngredientsPanel(IngredientLines(recipe.extendedIngredients))])
      && (clicks != [] && clicks[|clicks| - 1] == CookingStepsButton ==>
            shown == [StepsPanel(ParseInstructions(recipe.instructions))])
      && (clicks != [] && clicks[|clicks| - 1] == NutritionButton ==>
            shown == [NutritionPanel(RenderNutrition(recipe.nutrition))])
      && (clicks != [] && clicks[|clicks| - 1] == IngredientsButton ==>
            shown == [IngredientsPanel(IngredientLines(recipe.extendedIngredients))])
  {
    LastClickWins(InitialTab, clicks);
  }
}
