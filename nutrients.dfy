/**
 * The nutrient filter of `renderNutrition` on the recipe page: of the
 * nutrients the recipe service reports, only six well-known ones are shown.
 */
module Nutrients {
  import opened Wrappers
  import opened Sequences

  /** One entry of `recipe.nutrition.nutrients`; the amount and the unit are only carried along to be shown. */
  datatype Nutrient = Nutrient(name: string, amount: real, unit: string)

  /** `recipe.nutrition`, whose `nutrients` list may be missing. */
  datatype NutritionInfo = NutritionInfo(nutrients: Option<seq<Nutrient>>)

  /** What the nutrition panel shows: a fixed message, or a grid of nutrients. */
  datatype NutritionView = Message(text: string) | Grid(shown: seq<Nutrient>)

  const NoNutritionInfo: string := "No nutrition information available"

  /** `keysToShow`. */
  const KeysToShow: seq<string> := ["Calories", "Fat", "Carbohydrates", "Protein", "Fiber", "Sugar"]

  /** Whether a nutrient's name is one of the six keys, compared exactly (case included). */
  predicate IsShown(n: Nutrient) {
    n.name in KeysToShow
  }

  /**
   * `renderNutrition`. A missing `nutrition` or a missing `nutrients` list
   * gives the fixed message; otherwise (an empty list included, since an
   * array is always truthy) the grid holds exactly the nutrients named by one
   * of the six keys, in the reported order and with repetitions.
   */
  function RenderNutrition(nutrition: Option<NutritionInfo>): (view: NutritionView)
    ensures (nutrition.None? || nutrition.value.nutrients.None?) <==> view == Message(NoNutritionInfo)
    ensures !(nutrition.None? || nutrition.value.nutrients.None?) ==>
      var all := nutrition.value.nutrients.value;
      && view.Grid?
      && |view.shown| <= |all|
      && (forall n <- view.shown :: n.name in KeysToShow)
      && IsSubsequence(view.shown, all)
      && forall n :: multiset(view.shown)[n] == if n.name in KeysToShow then multiset(all)[n] else 0
  {
    if nutrition.None? || nutrition.value.nutrients.None? then Message(NoNutritionInfo)
    else Grid(Filter(nutrition.value.nutrients.value, IsShown))
  }

  /** An empty but present list is shown as an empty grid, not as the message. */
  lemma EmptyListGivesEmptyGrid()
    ensures RenderNutrition(Some(NutritionInfo(Some([])))) == Grid([])
  {
  }

  /** Every nutrient named by a key is shown, as often as it is reported. */
  lemma {:induction false} KeyedNutrientsAreShown(all: seq<Nutrient>, n: Nutrient)
    requires n in all && n.name in KeysToShow
    ensures var view := RenderNutrition(Some(NutritionInfo(Some(all))));
      view.Grid? && n in view.shown
  {
    var view := RenderNutrition(Some(NutritionInfo(Some(all))));
    assert multiset(view.shown)[n] == multiset(all)[n] > 0;
  }
}
