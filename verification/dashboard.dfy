/** The dashboard's pure helpers over the saved recipes: the search and
    ingredient-count filter, the ten-per-page pagination, and the ingredient
    word counts and per-recipe sizes of `analyze_recipe_data`. A saved recipe
    is read back from JSON, so each field may be absent and is then read with
    its `.get` default. */
module Dashboard {
  import opened Options
  import opened Seqs
  import opened Text

  datatype StoredRecipe = StoredRecipe(
    title: Option<string>,
    ingredients: Option<seq<string>>,
    instructions: Option<seq<string>>)

  /** `recipe.get("ingredients", [])`. */
  function IngredientsOf(r: StoredRecipe): seq<string> {
    r.ingredients.GetOr([])
  }

  /** `recipe.get("instructions", [])`. */
  function InstructionsOf(r: StoredRecipe): seq<string> {
    r.instructions.GetOr([])
  }

  // ---------------------------------------------------------------- search

  /** Some item contains `t` once lower-cased (the ingredient loop of `match`). */
  function AnyContains(items: seq<string>, t: string): (b: bool)
    ensures b <==> exists i :: 0 <= i < |items| && Contains(Lower(items[i]), t)
    decreases |items|
  {
    if items == [] then false
    else if Contains(Lower(items[0]), t) then true
    else
      var rest := AnyContains(items[1..], t);
      assert rest ==> exists i :: 0 <= i < |items| && Contains(Lower(items[i]), t) by {
        if rest {
          var i :| 0 <= i < |items[1..]| && Contains(Lower(items[1..][i]), t);
          assert items[1..][i] == items[i + 1];
        }
      }
      assert (exists i :: 0 <= i < |items| && Contains(Lower(items[i]), t)) ==> rest by {
        if exists i :: 0 <= i < |items| && Contains(Lower(items[i]), t) {
          var i :| 0 <= i < |items| && Contains(Lower(items[i]), t);
          assert i != 0;
          assert items[1..][i - 1] == items[i];
        }
      }
      rest
  }

  /** `match(recipe, term)`: the lower-cased term occurs in the lower-cased
      title (empty when absent) or in some lower-cased ingredient. */
  function Match(r: StoredRecipe, term: string): (b: bool)
    ensures b <==>
      || Contains(Lower(r.title.GetOr("")), Lower(term))
      || exists i :: 0 <= i < |IngredientsOf(r)| && Contains(Lower(IngredientsOf(r)[i]), Lower(term))
  {
    if Contains(Lower(r.title.GetOr("")), Lower(term)) then true
    else AnyContains(IngredientsOf(r), Lower(term))
  }

  /** The empty term occurs in every title, so every recipe matches it. */
  lemma EmptyTermMatches(r: StoredRecipe)
    ensures Match(r, "")
  {
    ContainsEmpty(Lower(r.title.GetOr("")));
  }

  /** `ingredient_filter`: both bounds are inclusive, so an empty range
      rejects every recipe. */
  predicate IngredientFilter(r: StoredRecipe, minIng: int, maxIng: int)
    ensures IngredientFilter(r, minIng, maxIng) ==> minIng <= maxIng
  {
    minIng <= |IngredientsOf(r)| <= maxIng
  }

  /** The bounds are inclusive at both ends and exact: the recipe's own
      count passes as either bound, one past it on either side fails. */
  lemma IngredientFilterInclusive(r: StoredRecipe, minIng: int, maxIng: int)
    ensures IngredientFilter(r, |IngredientsOf(r)|, |IngredientsOf(r)|)
    ensures !IngredientFilter(r, |IngredientsOf(r)| + 1, maxIng)
    ensures !IngredientFilter(r, minIng, |IngredientsOf(r)| - 1)
  {
  }

  /** The condition of the filter loop. */
  function Selected(term: string, minIng: int, maxIng: int): StoredRecipe -> bool {
    r => (term == [] || Match(r, term)) && IngredientFilter(r, minIng, maxIng)
  }

  /** The `not search_term` shortcut never changes the outcome: without it
      the empty term still matches every recipe. */
  lemma ShortcutRedundant(term: string, minIng: int, maxIng: int, r: StoredRecipe)
    ensures Selected(term, minIng, maxIng)(r) == (Match(r, term) && IngredientFilter(r, minIng, maxIng))
  {
    if term == [] {
      EmptyTermMatches(r);
    }
  }

  /** The filter loop: keep, in order, every recipe the condition accepts. */
  method FilterRecipes(recipes: seq<StoredRecipe>, term: string, minIng: int, maxIng: int)
    returns (filtered: seq<StoredRecipe>)
    ensures filtered == Filter(Selected(term, minIng, maxIng), recipes)
    ensures forall r :: r in filtered <==>
      r in recipes && (term == [] || Match(r, term)) && IngredientFilter(r, minIng, maxIng)
    ensures IsSubseq(filtered, recipes)
  {
    var keep := Selected(term, minIng, maxIng);
    filtered := [];
    var i := 0;
    while i < |recipes|
      invariant 0 <= i <= |recipes|
      invariant filtered == Filter(keep, recipes[..i])
    {
      var recipe := recipes[i];
      FilterConcat(keep, recipes[..i], [recipe]);
      assert recipes[..i + 1] == recipes[..i] + [recipe];
      assert keep(recipe) == ((term == [] || Match(recipe, term)) && IngredientFilter(recipe, minIng, maxIng));
      if (term == [] || Match(recipe, term)) && IngredientFilter(recipe, minIng, maxIng) {
        filtered := filtered + [recipe];
      }
      i := i + 1;
    }
    assert recipes[..i] == recipes;
    FilterSubseq(keep, recipes);
    assert forall r :: r in filtered <==> r in recipes && keep(r);
  }

  /** With an empty search box only the ingredient-count bounds matter. */
  lemma EmptySearchOnlyCounts(recipes: seq<StoredRecipe>, minIng: int, maxIng: int)
    ensures Filter(Selected("", minIng, maxIng), recipes)
         == Filter(r => IngredientFilter(r, minIng, maxIng), recipes)
  {
    FilterCongruent(Selected("", minIng, maxIng), r => IngredientFilter(r, minIng, maxIng), recipes);
  }

  // ------------------------------------------------------------ pagination

  const PAGE_SIZE := 10

  /** `(len(filtered) - 1) // page_size + 1 if filtered else 1`: the number of
      pages, which is the ceiling of `n / PAGE_SIZE` and never zero. */
  function TotalPages(n: nat): (pages: int)
    ensures pages >= 1
    ensures n == 0 ==> pages == 1
    ensures n > 0 ==> (pages - 1) * PAGE_SIZE < n <= pages * PAGE_SIZE
  {
    if n > 0 then (n - 1) / PAGE_SIZE + 1 else 1
  }

  /** `filtered[start_idx:end_idx]` for a page the page selector accepts:
      the slice clamps its end at the length of the list. */
  function PageSlice<T>(f: seq<T>, page: int): (r: seq<T>)
    requires 1 <= page <= TotalPages(|f|)
    ensures |r| <= PAGE_SIZE
    ensures f != [] ==> r != []
    ensures page < TotalPages(|f|) ==> |r| == PAGE_SIZE
    ensures (page - 1) * PAGE_SIZE + |r| <= |f|
    ensures forall j :: 0 <= j < |r| ==> r[j] == f[(page - 1) * PAGE_SIZE + j]
  {
    var start := (page - 1) * PAGE_SIZE;
    var end := start + PAGE_SIZE;
    f[start..Min(end, |f|)]
  }

  /** The item at position `i` is shown on page `i / 10 + 1`, at row `i % 10`. */
  lemma ItemPage<T>(f: seq<T>, i: nat)
    requires i < |f|
    ensures 1 <= i / PAGE_SIZE + 1 <= TotalPages(|f|)
    ensures i % PAGE_SIZE < |PageSlice(f, i / PAGE_SIZE + 1)|
    ensures PageSlice(f, i / PAGE_SIZE + 1)[i % PAGE_SIZE] == f[i]
  {
    var page := i / PAGE_SIZE + 1;
    assert (page - 1) * PAGE_SIZE + i % PAGE_SIZE == i;
  }

  /** Pages `k` through the last, in order. */
  function PagesFrom<T>(f: seq<T>, k: int): seq<seq<T>>
    requires 1 <= k <= TotalPages(|f|) + 1
    decreases TotalPages(|f|) + 1 - k
  {
    if k > TotalPages(|f|) then [] else [PageSlice(f, k)] + PagesFrom(f, k + 1)
  }

  /** Every page the selector can show, first to last. */
  function Pages<T>(f: seq<T>): seq<seq<T>> {
    PagesFrom(f, 1)
  }

  lemma {:induction false} PagesFromCover<T>(f: seq<T>, k: int)
    requires 1 <= k <= TotalPages(|f|) + 1
    ensures (k - 1) * PAGE_SIZE <= |f| ==> Flatten(PagesFrom(f, k)) == f[(k - 1) * PAGE_SIZE..]
    ensures (k - 1) * PAGE_SIZE > |f| ==> Flatten(PagesFrom(f, k)) == []
    decreases TotalPages(|f|) + 1 - k
  {
    if k <= TotalPages(|f|) {
      var page := PageSlice(f, k);
      var start := (k - 1) * PAGE_SIZE;
      assert k * PAGE_SIZE == start + PAGE_SIZE;
      assert page == f[start..Min(start + PAGE_SIZE, |f|)];
      PagesFromCover(f, k + 1);
      if k < TotalPages(|f|) {
        assert f[start..] == page + f[k * PAGE_SIZE..];
      } else {
        assert Flatten(PagesFrom(f, k + 1)) == [];
        assert page == f[start..];
      }
      assert Flatten(PagesFrom(f, k)) == page + Flatten(PagesFrom(f, k + 1));
    }
  }

  /** Paging loses and repeats nothing: the pages, read in order, are the
      filtered list. */
  lemma PagesConcatenate<T>(f: seq<T>)
    ensures Flatten(Pages(f)) == f
    ensures |Pages(f)| == TotalPages(|f|)
  {
    PagesFromCover(f, 1);
    PagesCount(f, 1);
  }

  lemma {:induction false} PagesCount<T>(f: seq<T>, k: int)
    requires 1 <= k <= TotalPages(|f|) + 1
    ensures |PagesFrom(f, k)| == TotalPages(|f|) + 1 - k
    decreases TotalPages(|f|) + 1 - k
  {
    if k <= TotalPages(|f|) {
      PagesCount(f, k + 1);
    }
  }

  // -------------------------------------------------------------- analysis

  const UNITS: set<string> := {
    "cups", "cup", "tablespoons", "tablespoon", "teaspoons", "teaspoon",
    "ounces", "ounce", "pounds", "pound"
  }

  /** A word that `analyze_recipe_data` counts. */
  predicate IsCountedWord(w: string) {
    |w| > 3 && w !in UNITS
  }

  predicate NotSpace(c: char) {
    !IsSpace(c)
  }

  /** `ingredient.lower().split()`. */
  function WordsOf(ingredient: string): seq<string> {
    Runs(NotSpace, Lower(ingredient))
  }

  /** `all_ingredients`: every recipe's ingredient list, one after another. */
  function AllIngredients(recipes: seq<StoredRecipe>): seq<string> {
    Flatten(MapSeq(IngredientsOf, recipes))
  }

  /** The words the counter sees, with repetitions, in the order it sees them. */
  function CountedWords(all: seq<string>): seq<string> {
    Filter(IsCountedWord, Flatten(MapSeq(WordsOf, all)))
  }

  /** A word is counted exactly when it is a long enough non-unit word of
      some ingredient. */
  lemma CountedWordsMeaning(all: seq<string>, w: string)
    ensures w in CountedWords(all) <==>
      IsCountedWord(w) && exists i :: 0 <= i < |all| && w in WordsOf(all[i])
  {
    var ws := MapSeq(WordsOf, all);
    FlattenMember(ws, w);
    if exists i :: 0 <= i < |ws| && w in ws[i] {
      var i :| 0 <= i < |ws| && w in ws[i];
      assert w in WordsOf(all[i]);
    }
    if exists i :: 0 <= i < |all| && w in WordsOf(all[i]) {
      var i :| 0 <= i < |all| && w in WordsOf(all[i]);
      assert w in ws[i];
    }
  }

  /** `Counter` fed with `ws`: one key per distinct word, holding the number
      of its occurrences. */
  function Tally(ws: seq<string>): (c: map<string, nat>)
    ensures forall w :: w in c <==> w in ws
    ensures forall w :: w in c ==> c[w] == multiset(ws)[w]
    decreases |ws|
  {
    if ws == [] then map[]
    else
      var init := ws[..|ws| - 1];
      var last := ws[|ws| - 1];
      assert ws == init + [last];
      var c := Tally(init);
      c[last := if last in c then c[last] + 1 else 1]
  }

  /** One row of `complexity_data`, without the floating-point score. */
  datatype Complexity = Complexity(title: string, ingredientCount: nat, instructionCount: nat)

  function ComplexityOf(r: StoredRecipe): Complexity {
    Complexity(r.title.GetOr("Unknown"), |IngredientsOf(r)|, |InstructionsOf(r)|)
  }

  datatype Analysis = Analysis(counter: map<string, nat>, complexity: seq<Complexity>, allIngredients: seq<string>)

  /** `analyze_recipe_data`. */
  function AnalyzeRecipeData(recipes: seq<StoredRecipe>): (a: Analysis)
    ensures recipes == [] ==> a == Analysis(map[], [], [])
    ensures a.allIngredients == AllIngredients(recipes)
    ensures forall w :: w in a.counter <==> w in CountedWords(a.allIngredients)
    ensures forall w :: w in a.counter ==> a.counter[w] == multiset(CountedWords(a.allIngredients))[w]
    ensures |a.complexity| == |recipes|
    ensures forall i :: 0 <= i < |recipes| ==>
      && a.complexity[i].title == recipes[i].title.GetOr("Unknown")
      && a.complexity[i].ingredientCount == |IngredientsOf(recipes[i])|
      && a.complexity[i].instructionCount == |InstructionsOf(recipes[i])|
  {
    if recipes == [] then Analysis(map[], [], [])
    else
      var all := AllIngredients(recipes);
      Analysis(Tally(CountedWords(all)), MapSeq(ComplexityOf, recipes), all)
  }

  /** The early return for no recipes gives what the general case would. */
  lemma EmptyAnalysisAgrees()
    ensures AnalyzeRecipeData([]) == Analysis(Tally(CountedWords(AllIngredients([]))), MapSeq(ComplexityOf, []), AllIngredients([]))
  {
    assert MapSeq(IngredientsOf, []) == [];
    assert CountedWords([]) == [];
  }

  /** The ingredients of two batches of recipes are those of the first
      followed by those of the second. */
  lemma AllIngredientsConcat(a: seq<StoredRecipe>, b: seq<StoredRecipe>)
    ensures AllIngredients(a + b) == AllIngredients(a) + AllIngredients(b)
  {
    MapSeqConcat(IngredientsOf, a, b);
    FlattenConcat(MapSeq(IngredientsOf, a), MapSeq(IngredientsOf, b));
  }
}
