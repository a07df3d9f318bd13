/**
 The menu of cli.py: `Menu.pizzas`, a dictionary literal from pizza name to
 `Pizza`, its exact-match lookup (`dict.get`) and the `menu` command's listing.
 */
module Menus {
  import opened Options
  import opened Text
  import opened Pizzas

  datatype Entry = Entry(name: string, pizza: Pizza)

  /** The entries of a dictionary literal, in the order they are written. */
  type Menu = seq<Entry>

  const Standard: Menu := [
    Entry("Margherita", Pizza("L", ["tomato sauce", "mozzarella", "tomatoes"])),
    Entry("Pepperoni", Pizza("XL", ["tomato sauce", "mozzarella", "pepperoni"])),
    Entry("Hawaiian", Pizza("L", ["tomato sauce", "mozzarella", "chicken", "pineapples"]))
  ]

  predicate HasName(menu: Menu, name: string) {
    exists i | 0 <= i < |menu| :: menu[i].name == name
  }

  /** No name is written twice, so the literal's entries are exactly the dictionary's items. */
  predicate DistinctNames(menu: Menu) {
    forall i, j | 0 <= i < j < |menu| :: menu[i].name != menu[j].name
  }

  /** The dictionary a literal builds: each entry in turn, a later one replacing an earlier key. */
  function ToMap(menu: Menu): map<string, Pizza> {
    if |menu| == 0 then map[]
    else ToMap(menu[..|menu| - 1])[menu[|menu| - 1].name := menu[|menu| - 1].pizza]
  }

  /**
   `dict.get(name)`: the pizza of the last entry with exactly that name (case
   and all), or `None` when no entry has it.
   */
  function Lookup(menu: Menu, name: string): (r: Option<Pizza>)
    ensures r.None? <==> !HasName(menu, name)
    ensures r.Some? ==> exists i | 0 <= i < |menu| :: menu[i] == Entry(name, r.value)
    ensures DistinctNames(menu) ==>
      forall i | 0 <= i < |menu| && menu[i].name == name :: r == Some(menu[i].pizza)
  {
    if |menu| == 0 then None
    else if menu[|menu| - 1].name == name then Some(menu[|menu| - 1].pizza)
    else
      var r := Lookup(menu[..|menu| - 1], name);
      assert forall i | 0 <= i < |menu| - 1 :: menu[..|menu| - 1][i] == menu[i];
      r
  }

  /** Looking a name up in the entry list agrees with `get` on the dictionary they build. */
  lemma {:induction false} LookupAgreesWithDict(menu: Menu, name: string)
    ensures Lookup(menu, name) == if name in ToMap(menu) then Some(ToMap(menu)[name]) else None
  {
    if |menu| > 0 {
      LookupAgreesWithDict(menu[..|menu| - 1], name);
    }
  }

  lemma StandardHasDistinctNames()
    ensures DistinctNames(Standard)
  {
  }

  /** Lookup is exact: a name differing only in case is not on the menu. */
  lemma LookupIsCaseSensitive()
    ensures Lookup(Standard, "Margherita") == Some(Pizza("L", ["tomato sauce", "mozzarella", "tomatoes"]))
    ensures Lookup(Standard, "margherita") == None
  {
    assert !HasName(Standard, "margherita") by {
      assert Standard[0].name[0] == 'M';
      assert Standard[1].name[0] == 'P';
      assert Standard[2].name[0] == 'H';
    }
  }

  const PizzaMark := " \U{1F355} : "

  /** One line of the `menu` command: `- <name> 🍕 : <ingredients joined by ", ">`. */
  function MenuLine(e: Entry): string {
    "- " + e.name + PizzaMark + Join(IngredientSeparator, e.pizza.ingredients)
  }

  /** Reads a menu line back into the name and the ingredient list. */
  function ParseMenuLine(line: string): Option<(string, seq<string>)> {
    if !StartsWith(line, "- ") then None
    else match SplitHead(line[2..], PizzaMark)
      case None => None
      case Some((name, joined)) => Some((name, Split(joined, IngredientSeparator)))
  }

  /** An entry a menu line describes unambiguously: no space in the name, no comma in an ingredient. */
  predicate Listable(e: Entry) {
    ' ' !in e.name && Separable(e.pizza.ingredients)
  }

  /** A menu line gives back the name and every ingredient, in order. */
  lemma MenuLineRoundTrip(e: Entry)
    requires Listable(e)
    ensures ParseMenuLine(MenuLine(e)) == Some((e.name, e.pizza.ingredients))
  {
    var joined := Join(IngredientSeparator, e.pizza.ingredients);
    var line := MenuLine(e);
    assert line[2..] == e.name + PizzaMark + joined;
    SplitHeadAfter(e.name, PizzaMark, joined);
    SplitJoin(IngredientSeparator, e.pizza.ingredients);
  }

  lemma StandardIsListable()
    ensures forall i | 0 <= i < |Standard| :: Listable(Standard[i])
  {
  }

  /** The `menu` command: one line per entry, in the order of the table. */
  method ShowMenu(menu: Menu) returns (lines: seq<string>)
    ensures |lines| == |menu|
    ensures forall i | 0 <= i < |menu| :: lines[i] == MenuLine(menu[i])
  {
    lines := [];
    var k := 0;
    while k < |menu|
      invariant 0 <= k <= |menu|
      invariant |lines| == k
      invariant forall i | 0 <= i < k :: lines[i] == MenuLine(menu[i])
    {
      lines := lines + [MenuLine(menu[k])];
      k := k + 1;
    }
  }
}
