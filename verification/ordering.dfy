/**
 The body of the `order` command of cli.py as a function from the pizza name
 and the `--delivery` flag to the lines it echoes and how it ends. The body runs
 in a `try` whose `finally` always echoes the "invalid pizza" line; a name the
 menu lacks makes `dict.get` return `None`, and reading `.size` of it raises.
 */
module Ordering {
  import opened Options
  import opened Text
  import opened Pizzas
  import opened Menus

  const InvalidPizzaMessage := "Invalid pizza type. Please choose from the menu."
  const DeliveredMessage := "\U{1F6F5} Доставили за 1с!"
  const BakedPrefix := "Приготовили за "
  const SecondsSuffix := "с!"

  /** The simulated baking time: 2 seconds for size `L`, 4 for any other size. */
  function BakeSeconds(p: Pizza): nat {
    if p.size == "L" then 2 else 4
  }

  function BakedMessage(seconds: nat): string {
    BakedPrefix + DecimalString(seconds) + SecondsSuffix
  }

  /** Reads the number of seconds back out of a bake line. */
  function ParseBakedMessage(line: string): Option<nat> {
    if |line| < |BakedPrefix| + |SecondsSuffix| then None
    else if line[..|BakedPrefix|] != BakedPrefix then None
    else if line[|line| - |SecondsSuffix|..] != SecondsSuffix then None
    else
      var digits := line[|BakedPrefix|..|line| - |SecondsSuffix|];
      if |digits| > 0 && forall i | 0 <= i < |digits| :: IsDigit(digits[i])
      then Some(ParseDecimal(digits))
      else None
  }

  /** A bake line reports exactly the seconds it was made from. */
  lemma BakedMessageRoundTrip(seconds: nat)
    ensures ParseBakedMessage(BakedMessage(seconds)) == Some(seconds)
  {
    var line := BakedMessage(seconds);
    var digits := DecimalString(seconds);
    assert line[..|BakedPrefix|] == BakedPrefix;
    assert line[|line| - |SecondsSuffix|..] == SecondsSuffix;
    assert line[|BakedPrefix|..|line| - |SecondsSuffix|] == digits;
    DecimalRoundTrip(seconds);
  }

  /** How the command ends: normally, or with the `AttributeError` of `None.size`. */
  datatype Ending = Completed | AttributeError

  datatype OrderRun = OrderRun(lines: seq<string>, ending: Ending)

  /**
   `order <name> [--delivery]`. For a name on the menu: the bake line, the
   delivery line when the flag is set, then the "invalid pizza" line from the
   `finally` clause. For any other name: only that line, and the call raises.
   */
  function Order(menu: Menu, name: string, delivery: bool): (r: OrderRun)
    ensures |r.lines| > 0 && r.lines[|r.lines| - 1] == InvalidPizzaMessage
    ensures r.ending == AttributeError <==> !HasName(menu, name)
    ensures !HasName(menu, name) ==> r.lines == [InvalidPizzaMessage]
    ensures HasName(menu, name) ==> |r.lines| == if delivery then 3 else 2
    ensures DeliveredMessage in r.lines <==> HasName(menu, name) && delivery
  {
    match Lookup(menu, name)
    case None => OrderRun([InvalidPizzaMessage], AttributeError)
    case Some(p) =>
      var baked := BakedMessage(BakeSeconds(p));
      assert baked[0] == 'П' && DeliveredMessage[0] == '\U{1F6F5}';
      if delivery then OrderRun([baked, DeliveredMessage, InvalidPizzaMessage], Completed)
      else OrderRun([baked, InvalidPizzaMessage], Completed)
  }

  /**
   For a name the menu finds, the first line reports 2 seconds of baking when the
   pizza found has size `L` and 4 seconds otherwise.
   */
  lemma OrderBakeTime(menu: Menu, name: string, delivery: bool)
    ensures Lookup(menu, name).Some? ==>
      ParseBakedMessage(Order(menu, name, delivery).lines[0])
        == Some(if Lookup(menu, name).value.size == "L" then 2 else 4)
  {
    if Lookup(menu, name).Some? {
      BakedMessageRoundTrip(BakeSeconds(Lookup(menu, name).value));
    }
  }

  /** Ordering a Margherita for pickup: bake for 2 seconds, then the "invalid pizza" line. */
  lemma OrderMargheritaForPickup()
    ensures Order(Standard, "Margherita", false) == OrderRun([BakedMessage(2), InvalidPizzaMessage], Completed)
  {
    assert Standard[0].name == "Margherita";
  }

  /** Ordering a Pepperoni (size XL) for delivery: bake for 4 seconds, deliver, then the "invalid pizza" line. */
  lemma OrderPepperoniForDelivery()
    ensures Order(Standard, "Pepperoni", true)
      == OrderRun([BakedMessage(4), DeliveredMessage, InvalidPizzaMessage], Completed)
  {
    assert Standard[1].name == "Pepperoni";
  }

  /** An unknown name, or a known one in the wrong case, echoes only the "invalid pizza" line and raises. */
  lemma OrderUnknownPizza(delivery: bool)
    ensures Order(Standard, "Unknown", delivery) == OrderRun([InvalidPizzaMessage], AttributeError)
    ensures Order(Standard, "margherita", delivery) == OrderRun([InvalidPizzaMessage], AttributeError)
  {
    assert !HasName(Standard, "Unknown") by {
      assert Standard[0].name[0] == 'M' && Standard[1].name[0] == 'P' && Standard[2].name[0] == 'H';
    }
    LookupIsCaseSensitive();
  }
}
