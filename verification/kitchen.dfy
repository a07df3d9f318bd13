/**
 The two logged fulfilment functions of cli.py, `delivery` and `pickup`: each
 formats the pizza as `<size> - <ingredients joined by ", ">` after its own
 prefix, wrapped by `log` with its own template.
 */
module Kitchen {
  import opened Options
  import opened Text
  import opened Pizzas
  import opened Timing

  const DeliveredPrefix := "Pizza delivered: "
  const PickupPrefix := "Pizza ready for pickup: "
  const SizeSeparator := " - "

  const DeliveryTemplate := Template("\U{1F6F5} Доставили за ", "с!")
  const PickupTemplate := Template("\U{1F3E0} Забрали за ", "с!")

  /** The part both messages share: `<size> - <ingredient>, <ingredient>, …`. */
  function Describe(p: Pizza): string {
    p.size + SizeSeparator + Join(IngredientSeparator, p.ingredients)
  }

  /** The value `delivery(pizza)` returns. */
  function DeliveryMessage(p: Pizza): string {
    DeliveredPrefix + Describe(p)
  }

  /** The value `pickup(pizza)` returns. */
  function PickupMessage(p: Pizza): string {
    PickupPrefix + Describe(p)
  }

  /** `delivery` as decorated: the message, plus the line `log` echoes. */
  function Delivery(p: Pizza, duration: string): Logged<string> {
    Log("delivery", DeliveryTemplate, (q: Pizza) => Returned(DeliveryMessage(q)), duration, p)
  }

  /** `pickup` as decorated: the message, plus the line `log` echoes. */
  function Pickup(p: Pizza, duration: string): Logged<string> {
    Log("pickup", PickupTemplate, (q: Pizza) => Returned(PickupMessage(q)), duration, p)
  }

  /** Reads a description back into a pizza. */
  function ParseDescription(s: string): Option<Pizza> {
    match SplitHead(s, SizeSeparator)
    case None => None
    case Some((size, joined)) => Some(Pizza(size, Split(joined, IngredientSeparator)))
  }

  /** Reads a message with the given prefix back into the pizza it describes. */
  function ParseMessage(prefix: string, msg: string): Option<Pizza> {
    if StartsWith(msg, prefix) then ParseDescription(msg[|prefix|..]) else None
  }

  /** A pizza its description names unambiguously: no space in the size, no comma in an ingredient. */
  predicate Describable(p: Pizza) {
    ' ' !in p.size && Separable(p.ingredients)
  }

  /** A description gives back the size and every ingredient, in order. */
  lemma DescriptionRoundTrip(p: Pizza)
    requires Describable(p)
    ensures ParseDescription(Describe(p)) == Some(p)
  {
    var joined := Join(IngredientSeparator, p.ingredients);
    SplitHeadAfter(p.size, SizeSeparator, joined);
    SplitJoin(IngredientSeparator, p.ingredients);
  }

  lemma PrefixedRoundTrip(prefix: string, p: Pizza)
    requires Describable(p)
    ensures ParseMessage(prefix, prefix + Describe(p)) == Some(p)
  {
    var msg := prefix + Describe(p);
    assert msg[..|prefix|] == prefix;
    assert msg[|prefix|..] == Describe(p);
    DescriptionRoundTrip(p);
  }

  /** The delivery message names the pizza delivered: size and ingredients come back from it. */
  lemma DeliveryRoundTrip(p: Pizza)
    requires Describable(p)
    ensures ParseMessage(DeliveredPrefix, DeliveryMessage(p)) == Some(p)
  {
    PrefixedRoundTrip(DeliveredPrefix, p);
  }

  /** The pickup message names the pizza picked up: size and ingredients come back from it. */
  lemma PickupRoundTrip(p: Pizza)
    requires Describable(p)
    ensures ParseMessage(PickupPrefix, PickupMessage(p)) == Some(p)
  {
    PrefixedRoundTrip(PickupPrefix, p);
  }

  /** No delivery message is ever a pickup message. */
  lemma DeliveryIsNotPickup(p: Pizza, q: Pizza)
    ensures DeliveryMessage(p) != PickupMessage(q)
  {
    assert DeliveryMessage(p)[6] == 'd';
    assert PickupMessage(q)[6] == 'r';
  }

  /** Both messages contain the pizza's description, after the words naming the fulfilment. */
  lemma MessagesContainDescription(p: Pizza)
    ensures StartsWith(DeliveryMessage(p), "Pizza delivered")
    ensures IsInfix(Describe(p), DeliveryMessage(p))
    ensures StartsWith(PickupMessage(p), "Pizza ready for pickup")
    ensures IsInfix(Describe(p), PickupMessage(p))
  {
    OccursInConcat(DeliveredPrefix, Describe(p), "");
    assert DeliveredPrefix + Describe(p) + "" == DeliveryMessage(p);
    OccursInConcat(PickupPrefix, Describe(p), "");
    assert PickupPrefix + Describe(p) + "" == PickupMessage(p);
  }

  /**
   Decorated `delivery` returns the bare message and echoes the one line
   `delivery — 🛵 Доставили за <duration>с!`.
   */
  lemma DeliveryLogged(p: Pizza, duration: string)
    ensures Delivery(p, duration).call == Returned(DeliveryMessage(p))
    ensures Delivery(p, duration).lines == ["delivery — \U{1F6F5} Доставили за " + duration + "с!"]
  {
    assert LogLine("delivery", DeliveryTemplate, duration) == "delivery — \U{1F6F5} Доставили за " + duration + "с!";
  }

  /**
   Decorated `pickup` returns the bare message and echoes the one line
   `pickup — 🏠 Забрали за <duration>с!`.
   */
  lemma PickupLogged(p: Pizza, duration: string)
    ensures Pickup(p, duration).call == Returned(PickupMessage(p))
    ensures Pickup(p, duration).lines == ["pickup — \U{1F3E0} Забрали за " + duration + "с!"]
  {
    assert LogLine("pickup", PickupTemplate, duration) == "pickup — \U{1F3E0} Забрали за " + duration + "с!";
  }

  /** The description of an XL pepperoni pizza, piece by piece. */
  lemma DescribePepperoni()
    ensures Describe(Pizza("XL", ["tomato sauce", "mozzarella", "pepperoni"]))
      == "XL" + " - " + "tomato sauce" + ", " + "mozzarella" + ", " + "pepperoni"
  {
    JoinOfThree(IngredientSeparator, "tomato sauce", "mozzarella", "pepperoni");
  }

  /** The description of a Hawaiian pizza of size L, piece by piece. */
  lemma DescribeHawaiian()
    ensures Describe(Pizza("L", ["tomato sauce", "mozzarella", "chicken", "pineapples"]))
      == "L" + " - " + "tomato sauce" + ", " + "mozzarella" + ", " + "chicken" + ", " + "pineapples"
  {
    JoinOfFour(IngredientSeparator, "tomato sauce", "mozzarella", "chicken", "pineapples");
  }

  /** Delivering an XL pepperoni pizza, whatever the elapsed time, returns the text the tests look for. */
  lemma DeliveryOfPepperoni(duration: string)
    ensures Delivery(Pizza("XL", ["tomato sauce", "mozzarella", "pepperoni"]), duration).call.Returned?
    ensures IsInfix("Pizza delivered",
      Delivery(Pizza("XL", ["tomato sauce", "mozzarella", "pepperoni"]), duration).call.value)
    ensures IsInfix("XL" + " - " + "tomato sauce" + ", " + "mozzarella" + ", " + "pepperoni",
      Delivery(Pizza("XL", ["tomato sauce", "mozzarella", "pepperoni"]), duration).call.value)
  {
    var p := Pizza("XL", ["tomato sauce", "mozzarella", "pepperoni"]);
    DeliveryLogged(p, duration);
    MessagesContainDescription(p);
    PrefixIsInfix(DeliveryMessage(p), "Pizza delivered");
    DescribePepperoni();
  }

  /** Picking up a Hawaiian pizza of size L, whatever the elapsed time, returns the text the tests look for. */
  lemma PickupOfHawaiian(duration: string)
    ensures Pickup(Pizza("L", ["tomato sauce", "mozzarella", "chicken", "pineapples"]), duration).call.Returned?
    ensures IsInfix("Pizza ready for pickup",
      Pickup(Pizza("L", ["tomato sauce", "mozzarella", "chicken", "pineapples"]), duration).call.value)
    ensures IsInfix("L" + " - " + "tomato sauce" + ", " + "mozzarella" + ", " + "chicken" + ", " + "pineapples",
      Pickup(Pizza("L", ["tomato sauce", "mozzarella", "chicken", "pineapples"]), duration).call.value)
  {
    var p := Pizza("L", ["tomato sauce", "mozzarella", "chicken", "pineapples"]);
    PickupLogged(p, duration);
    MessagesContainDescription(p);
    PrefixIsInfix(PickupMessage(p), "Pizza ready for pickup");
    DescribeHawaiian();
  }
}
