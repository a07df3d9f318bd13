/**
 The `Pizza` value of cli.py: a size and an ordered list of ingredients, its
 export as a `{size, ingredients}` dictionary, and its `==`.
 */
module Pizzas {
  import opened Options

  datatype Pizza = Pizza(size: string, ingredients: seq<string>)

  /** A value of the exported dictionary: a string or a list of strings. */
  datatype Field = Str(text: string) | StrList(items: seq<string>)

  const SizeKey := "size"
  const IngredientsKey := "ingredients"

  /** `Pizza.dict()`: the size and the ingredient list under their two keys, and nothing else. */
  function ToDict(p: Pizza): (d: map<string, Field>)
    ensures d.Keys == {SizeKey, IngredientsKey}
    ensures d[SizeKey] == Str(p.size)
    ensures d[IngredientsKey] == StrList(p.ingredients)
  {
    map[SizeKey := Str(p.size), IngredientsKey := StrList(p.ingredients)]
  }

  /** Rebuilds a pizza from a dictionary shaped like the one `ToDict` exports. */
  function FromDict(d: map<string, Field>): Option<Pizza> {
    if SizeKey in d && IngredientsKey in d && d[SizeKey].Str? && d[IngredientsKey].StrList?
    then Some(Pizza(d[SizeKey].text, d[IngredientsKey].items))
    else None
  }

  /** The exported dictionary holds exactly what the pizza was built with. */
  lemma DictRoundTrip(p: Pizza)
    ensures FromDict(ToDict(p)) == Some(p)
  {
  }

  /** Python's `==` on two lists of strings: same length and equal element by element. */
  function ListEquals(xs: seq<string>, ys: seq<string>): bool {
    if |xs| != |ys| then false
    else if |xs| == 0 then true
    else xs[0] == ys[0] && ListEquals(xs[1..], ys[1..])
  }

  /** `Pizza.__eq__`: equal sizes and equal ingredient lists. */
  function Equals(a: Pizza, b: Pizza): bool {
    a.size == b.size && ListEquals(a.ingredients, b.ingredients)
  }

  lemma {:induction false} ListEqualsIsEquality(xs: seq<string>, ys: seq<string>)
    ensures ListEquals(xs, ys) <==> xs == ys
    decreases |xs|
  {
    if |xs| == |ys| && |xs| > 0 {
      ListEqualsIsEquality(xs[1..], ys[1..]);
      assert xs == [xs[0]] + xs[1..];
      assert ys == [ys[0]] + ys[1..];
    }
  }

  /** Pizza equality is structural: it holds exactly for identical pizza values. */
  lemma EqualsIsIdentity(a: Pizza, b: Pizza)
    ensures Equals(a, b) <==> a == b
  {
    ListEqualsIsEquality(a.ingredients, b.ingredients);
  }

  /**
   Equality is order-sensitive and element-wise: pizzas are equal iff their
   sizes match, their ingredient lists have one length, and agree at every position.
   */
  lemma EqualsElementwise(a: Pizza, b: Pizza)
    ensures Equals(a, b) <==>
      && a.size == b.size
      && |a.ingredients| == |b.ingredients|
      && forall i :: 0 <= i < |a.ingredients| ==> a.ingredients[i] == b.ingredients[i]
  {
    EqualsIsIdentity(a, b);
  }

  lemma EqualsReflexive(a: Pizza)
    ensures Equals(a, a)
  {
    EqualsIsIdentity(a, a);
  }

  lemma EqualsSymmetric(a: Pizza, b: Pizza)
    ensures Equals(a, b) <==> Equals(b, a)
  {
    EqualsIsIdentity(a, b);
    EqualsIsIdentity(b, a);
  }

  lemma EqualsTransitive(a: Pizza, b: Pizza, c: Pizza)
    requires Equals(a, b) && Equals(b, c)
    ensures Equals(a, c)
  {
    EqualsIsIdentity(a, b);
    EqualsIsIdentity(b, c);
    EqualsIsIdentity(a, c);
  }

  /** Two pizzas are equal exactly when their exported dictionaries are. */
  lemma EqualsAgreesWithDict(a: Pizza, b: Pizza)
    ensures Equals(a, b) <==> ToDict(a) == ToDict(b)
  {
    EqualsIsIdentity(a, b);
    if ToDict(a) == ToDict(b) {
      assert ToDict(a)[SizeKey] == ToDict(b)[SizeKey];
      assert ToDict(a)[IngredientsKey] == ToDict(b)[IngredientsKey];
    }
  }
}
