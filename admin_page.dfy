/**
 * The game master's panel: the catalog search, the rarity badge, and the form handlers
 * that guard the calls into the world store.
 */
module AdminPage {
  import opened Common
  import opened Seqs
  import opened JsText
  import opened GameModel
  import opened GameContext

  // ================================================================ pure helpers

  /** The badge class of a rarity; anything unrecognised looks common. */
  function RarityColor(rarity: string): (c: string)
    ensures c in ["bg-gray-500", "bg-green-500", "bg-blue-500", "bg-purple-500", "bg-orange-500"]
    ensures c == "bg-gray-500" <==> rarity !in ["uncommon", "rare", "epic", "legendary"]
  {
    match rarity
    case "common" => "bg-gray-500"
    case "uncommon" => "bg-green-500"
    case "rare" => "bg-blue-500"
    case "epic" => "bg-purple-500"
    case "legendary" => "bg-orange-500"
    case _ => "bg-gray-500"
  }

  /** The four named rarities get four different badges. */
  lemma RarityColorsDistinct(a: string, b: string)
    requires a in ["uncommon", "rare", "epic", "legendary"] && b in ["uncommon", "rare", "epic", "legendary"]
    requires RarityColor(a) == RarityColor(b)
    ensures a == b
  {
  }

  /** The position of the first occurrence of `x`. */
  function FirstIndex(s: seq<string>, x: string): (n: nat)
    requires x in s
    ensures n < |s| && s[n] == x && x !in s[..n]
  {
    if s[0] == x then 0
    else
      var m := FirstIndex(s[1..], x);
      assert s[1..][..m] == s[1..m + 1];
      m + 1
  }

  /** A prefix keeps the first occurrences of what it contains. */
  lemma {:induction false} FirstIndexOfPrefix(p: seq<string>, y: string, x: string)
    requires x in p
    ensures FirstIndex(p + [y], x) == FirstIndex(p, x)
  {
    if p[0] != x {
      var i :| 0 <= i < |p| && p[i] == x;
      assert p[1..][i - 1] == x;
      assert (p + [y])[1..] == p[1..] + [y];
      FirstIndexOfPrefix(p[1..], y, x);
    }
  }

  /** `Array.from(new Set(xs))`: each value once, in order of first occurrence. */
  function Dedupe(s: seq<string>): (r: seq<string>)
    ensures forall x :: x in r <==> x in s
    ensures Distinct(r)
    ensures forall i, j :: 0 <= i < j < |r| ==> FirstIndex(s, r[i]) < FirstIndex(s, r[j])
  {
    if s == [] then []
    else
      var p, y := s[..|s| - 1], s[|s| - 1];
      assert s == p + [y];
      var d := Dedupe(p);
      forall x | x in d ensures FirstIndex(s, x) == FirstIndex(p, x) {
        FirstIndexOfPrefix(p, y, x);
      }
      if y in d then d
      else
        assert FirstIndex(s, y) == |p| by {
          assert s[..|p|] == p;
        }
        d + [y]
  }

  /** The category of every catalog entry, in catalog order. */
  function CategoryColumn(items: seq<Item>): (cats: seq<string>)
    ensures |cats| == |items|
    ensures forall i :: 0 <= i < |items| ==> cats[i] == items[i].category
  {
    seq(|items|, i requires 0 <= i < |items| => items[i].category)
  }

  /** The category filter's options: every category of the catalog once, in order of first use. */
  function Categories(items: seq<Item>): (r: seq<string>)
    ensures forall c :: c in r <==> exists i :: 0 <= i < |items| && items[i].category == c
    ensures Distinct(r)
    ensures forall c :: c in r ==> c in CategoryColumn(items)
    ensures forall i, j :: 0 <= i < j < |r| ==>
      FirstIndex(CategoryColumn(items), r[i]) < FirstIndex(CategoryColumn(items), r[j])
  {
    Dedupe(CategoryColumn(items))
  }

  /** The catalog filter: the category (unless "all") and a case-insensitive name search. */
  function Matches(categoryFilter: string, query: string): (r: Item -> bool)
    ensures forall it :: r(it) ==> categoryFilter == "all" || it.category == categoryFilter
    ensures forall it :: r(it) ==> |query| <= |it.name|
  {
    (item: Item) => (categoryFilter == "all" || item.category == categoryFilter)
                    && Includes(ToLower(item.name), ToLower(query))
  }

  function FilteredItems(items: seq<Item>, categoryFilter: string, query: string): (r: seq<Item>)
    ensures forall x :: x in r <==>
      x in items && (categoryFilter == "all" || x.category == categoryFilter) && Includes(ToLower(x.name), ToLower(query))
    ensures forall x :: multiset(r)[x] == if Matches(categoryFilter, query)(x) then multiset(items)[x] else 0
    ensures Subsequence(r, items)
  {
    FilterSpec(items, Matches(categoryFilter, query));
    FilterMultiset(items, Matches(categoryFilter, query));
    Filter(items, Matches(categoryFilter, query))
  }

  /** With no search text and every category, the whole catalog is shown in order; a category
      only narrows what "all" shows. */
  lemma FilteredItemsLaws(items: seq<Item>, category: string, query: string)
    ensures FilteredItems(items, "all", "") == items
    ensures forall x :: x in FilteredItems(items, category, query) ==> x in FilteredItems(items, "all", query)
  {
    forall x | x in items ensures Matches("all", "")(x) {
      IncludesEmpty(ToLower(x.name));
    }
    assert forall i :: 0 <= i < |items| ==> items[i] in items;
    FilterSpec(items, Matches("all", ""));
  }

  /** `Number.parseInt(text) || 1`: a value that does not parse, or parses to zero, becomes one. */
  function StagingQuantity(text: string): (q: int)
    ensures q != 0
    ensures ParseInt(text).Some? && ParseInt(text).value != 0 ==> q == ParseInt(text).value
    ensures ParseInt(text).None? || ParseInt(text) == Some(0) ==> q == 1
  {
    match ParseInt(text)
    case None => 1
    case Some(v) => if v == 0 then 1 else v
  }

  /** Written quantities pass through, zero becomes one, and so does text with no digits;
      a negative quantity is not refused. */
  lemma StagingQuantityExamples(n: nat, junk: string)
    requires junk == [] || (!IsDigit(junk[0]) && !IsJsSpace(junk[0]) && junk[0] != '-' && junk[0] != '+')
    ensures StagingQuantity(NatToString(n)) == if n == 0 then 1 else n
    ensures StagingQuantity("-" + NatToString(n)) == if n == 0 then 1 else -(n as int)
    ensures StagingQuantity(junk) == 1
  {
    ParseIntOfNatToString(n);
    ParseIntOfNegated(n);
    ParseIntOfNoDigits(junk);
  }

  /** The create-item form: all the item's fields (the weight text is not modelled). */
  const BlankItemForm := ItemFields("", "#ffffff", "", "common", "", "")

  predicate ItemFormComplete(f: ItemFields)
  {
    f.name != "" && f.description != "" && f.icon != "" && f.category != ""
  }

  datatype RecipeForm = RecipeForm(name: string, ingredient1: string, ingredient2: string, resultItemId: string)

  const BlankRecipeForm := RecipeForm("", "", "", "")

  /** The recipe form is accepted when every field is filled in and the two ingredients differ. */
  predicate RecipeFormValid(f: RecipeForm)
  {
    f.name != "" && f.ingredient1 != "" && f.ingredient2 != "" && f.resultItemId != ""
    && f.ingredient1 != f.ingredient2
  }

  /** The ingredients of the recipe the form creates: one of each chosen item. */
  function RecipeIngredients(f: RecipeForm): (r: seq<Ingredient>)
    ensures |r| == 2
    ensures forall g :: g in r ==> g.quantity == 1
    ensures RecipeFormValid(f) ==> r[0].itemId != r[1].itemId && r[0].itemId != "" && r[1].itemId != ""
    ensures [r[0].itemId, r[1].itemId] == [f.ingredient1, f.ingredient2]
  {
    [Ingredient(f.ingredient1, 1), Ingredient(f.ingredient2, 1)]
  }

  // ================================================================ the panel

  class AdminPanel {
    const game: WorldStore
    var itemForm: ItemFields
    var recipeForm: RecipeForm
    var stagingTableId: string
    var stagingItemId: string
    var stagingQuantity: string
    var editingItem: Option<Item>
    var editDialogOpen: bool

    constructor (game: WorldStore)
      ensures this.game == game
      ensures itemForm == BlankItemForm && recipeForm == BlankRecipeForm
      ensures stagingTableId == "" && stagingItemId == "" && stagingQuantity == "1"
      ensures editingItem == None && !editDialogOpen
    {
      this.game := game;
      itemForm := BlankItemForm;
      recipeForm := BlankRecipeForm;
      stagingTableId := "";
      stagingItemId := "";
      stagingQuantity := "1";
      editingItem := None;
      editDialogOpen := false;
    }

    /** Creates the item when the required fields are filled in, then resets the form. */
    method HandleCreateItem(newId: string)
      modifies this`itemForm, game`items
      ensures !ItemFormComplete(old(itemForm)) ==> game.items == old(game.items) && itemForm == old(itemForm)
      ensures ItemFormComplete(old(itemForm)) ==>
        game.items == old(game.items) + [WithId(old(itemForm), newId)] && itemForm == BlankItemForm
    {
      if !ItemFormComplete(itemForm) {
        return;
      }
      var _ := game.CreateItem(itemForm, newId);
      itemForm := BlankItemForm;
    }

    /** Creates a two-ingredient recipe when the form is valid, then resets the form. */
    method HandleCreateRecipe(newId: string)
      modifies this`recipeForm, game`recipes
      ensures !RecipeFormValid(old(recipeForm)) ==> game.recipes == old(game.recipes) && recipeForm == old(recipeForm)
      ensures RecipeFormValid(old(recipeForm)) ==>
        var f := old(recipeForm);
        && game.recipes == old(game.recipes) + [CraftRecipe(newId, f.name, RecipeIngredients(f), f.resultItemId)]
        && recipeForm == BlankRecipeForm
    {
      if !RecipeFormValid(recipeForm) {
        return;
      }
      var f := recipeForm;
      game.CreateCraftRecipe(f.name, RecipeIngredients(f), f.resultItemId, newId);
      recipeForm := BlankRecipeForm;
    }

    /** Stages the chosen item with the typed quantity, then resets the selection. */
    method HandleAddToStaging()
      requires game.Valid()
      modifies this`stagingItemId, this`stagingQuantity, game`staging
      ensures game.Valid()
      ensures old(stagingItemId) == "" ==>
        game.staging == old(game.staging) && stagingItemId == old(stagingItemId) && stagingQuantity == old(stagingQuantity)
      ensures old(stagingItemId) != "" ==>
        && game.staging == GameModel.AddToStaging(old(game.staging), old(stagingItemId), StagingQuantity(old(stagingQuantity)))
        && stagingItemId == "" && stagingQuantity == "1"
    {
      if stagingItemId == "" {
        return;
      }
      game.AddToStaging(stagingItemId, StagingQuantity(stagingQuantity));
      stagingItemId := "";
      stagingQuantity := "1";
    }

    /** Hands the staging area to the chosen table when one is chosen and staging is not empty. */
    method HandleDistribute(stamp: string)
      requires game.Valid()
      modifies this`stagingTableId, game`lobby, game`log, game`staging
      ensures game.Valid()
      ensures old(stagingTableId) == "" || old(game.staging) == [] ==>
        && game.lobby == old(game.lobby) && game.log == old(game.log) && game.staging == old(game.staging)
        && stagingTableId == old(stagingTableId)
      ensures old(stagingTableId) != "" && old(game.staging) != [] ==>
        && game.lobby == old(game.lobby) + Distribution(game.items, old(game.staging), old(stagingTableId), stamp)
        && game.log == DistributionLog(game.items, old(game.staging), old(stagingTableId)) + old(game.log)
        && game.staging == [] && stagingTableId == ""
    {
      if stagingTableId == "" || |game.staging| == 0 {
        return;
      }
      game.DistributeStagingToLobby(stagingTableId, stamp);
      stagingTableId := "";
    }

    /** The staging area's clear button: once confirmed, removes the staged lines one by one
        by item id, which leaves staging empty, as `clearStaging` would. */
    method ClearStagingOneByOne(confirmed: bool)
      requires game.Valid()
      modifies game`staging
      ensures game.Valid()
      ensures !confirmed ==> game.staging == old(game.staging)
      ensures confirmed ==> game.staging == []
    {
      if !confirmed {
        return;
      }
      var s := game.staging;
      var j := 0;
      while j < |s|
        invariant 0 <= j <= |s|
        invariant game.Valid()
        invariant game.staging == s[j..]
      {
        RemoveFirstStaged(s[j..]);
        assert s[j..][0] == s[j] && s[j..][1..] == s[j + 1..];
        game.RemoveFromStaging(s[j].itemId);
        j := j + 1;
      }
    }

    /** Saves the edit dialog: the edited item replaces the catalog entries with its id, then the dialog closes. */
    method SaveEdit()
      requires editingItem.Some?
      modifies game`items, this`editingItem, this`editDialogOpen
      ensures var e := old(editingItem).value;
        && game.items == PatchCatalog(old(game.items), e.id, FullPatch(e))
        && |game.items| == |old(game.items)|
        && forall i :: 0 <= i < |game.items| ==>
             game.items[i] == if old(game.items)[i].id == e.id then e else old(game.items)[i]
      ensures editingItem == None && !editDialogOpen
    {
      var e := editingItem.value;
      SaveEditReplaces(game.items, e);
      game.UpdateItem(e.id, FullPatch(e));
      editDialogOpen := false;
      editingItem := None;
    }
  }
}
