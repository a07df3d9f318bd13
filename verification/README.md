# Pizza-ordering CLI, modelled in Dafny

A model of `cli.py`, a toy pizza-ordering command line program. It covers:

- the `Pizza` value (a size and an ordered ingredient list), its `dict()` export and its `==`;
- the menu `Menu.pizzas`, a dictionary literal from pizza name to `Pizza`, with exact, case-sensitive `dict.get` lookup;
- the `menu` command, which echoes one `- <name> 🍕 : <ingredients>` line per menu entry;
- the `log(template)` decorator, as a higher-order function that calls the wrapped function and then echoes `<function name> — <template filled with the elapsed time>`;
- the decorated `delivery` and `pickup` functions, which return `Pizza delivered: <size> - <ingredients>` and `Pizza ready for pickup: <size> - <ingredients>`;
- the `order` command, as a function from the pizza name and the `--delivery` flag to the echoed lines and to how the command ends.

Console output is modelled as a returned sequence of lines. The elapsed time that `log` reports is an input, given already rendered as the text that `template.format` inserts.

Modules, one file each:

| file | module | contents |
|---|---|---|
| options.dfy | `Options` | `Option`, standing in for Python's `None` |
| text.dfy | `Text` | `str.join` and `str.split`, with round-trip lemmas in both directions; decimal rendering of integers, with its parser; prefix and substring tests |
| pizzas.dfy | `Pizzas` | `Pizza`, `dict()`, `==` |
| menus.dfy | `Menus` | the menu table, lookup, menu lines, the `menu` command |
| timing.dfy | `Timing` | the `log` decorator |
| kitchen.dfy | `Kitchen` | `delivery` and `pickup`, bare and decorated |
| ordering.dfy | `Ordering` | the `order` command |

Each formatter is paired with a parser that reads its output back, and a round-trip lemma ties the two together. For example, `ParseMessage` recovers the pizza from a delivery message, `ParseMenuLine` recovers the name and ingredients from a menu line, and `ParseBakedMessage` recovers the seconds from a bake line. Pizza equality is shown to be Dafny's own equality on values and to agree with equality of the exported dictionaries. Menu lookup is shown to agree with `get` on the dictionary that the literal builds.

Behaviour of the code worth knowing:

- **`order` always prints the invalid-pizza line.** The message "Invalid pizza type. Please choose from the menu." is echoed in the `finally` clause (cli.py:125-126), so it is the last line of every order, successful or not.
- **An unknown name ends in an error.** `dict.get` returns `None` and `.size` raises `AttributeError`. The model's `Order` returns only the invalid-pizza line and the ending `AttributeError`.
- **`order` calls neither `delivery` nor `pickup`.** With the flag set, it echoes the fixed line `🛵 Доставили за 1с!`. Without the flag, it echoes no fulfilment line at all.
- **Lookup is exact and case-sensitive.** `"margherita"` is not on the menu.
- **Sizes are not validated.** Any size string is accepted, and bake time is 2 seconds for `"L"` and 4 for every other size.

## Model

| member | source | states |
|---|---|---|
| Text.JoinLength | cli.py:138 | `", ".join` yields the items' total length plus one separator between each two neighbours, and the empty text for an empty list |
| Text.SplitJoin | cli.py:138 | splitting a joined list at the separator gives back every non-empty list none of whose items holds the separator's first character (the empty list joins to `""`, which splits into `[""]`) |
| Text.JoinSplit | cli.py:138 | joining the pieces of a split gives back the original text, for every text |
| Text.DecimalRoundTrip | cli.py:122 | the decimal text of a non-negative integer in an f-string reads back as that integer |
| Pizzas.ToDict | cli.py:63-70 | `dict()` has exactly the keys `size` and `ingredients`, holding the pizza's size and ingredient list |
| Pizzas.DictRoundTrip | cli.py:49-70 | the exported dictionary rebuilds exactly the pizza that was constructed |
| Pizzas.ListEqualsIsEquality | cli.py:84 | Python list `==` (same length, equal at every position) is equality of sequences |
| Pizzas.EqualsIsIdentity | cli.py:72-85 | `__eq__` holds exactly when size and ingredient sequence are both identical |
| Pizzas.EqualsElementwise | cli.py:84 | pizzas are equal iff sizes match, ingredient lists have one length and agree position by position (order-sensitive) |
| Pizzas.EqualsReflexive | cli.py:84-85 | every pizza equals itself |
| Pizzas.EqualsSymmetric | cli.py:84-85 | `a == b` iff `b == a` |
| Pizzas.EqualsTransitive | cli.py:84-85 | equality of pizzas is transitive |
| Pizzas.EqualsAgreesWithDict | cli.py:63-85 | two pizzas are equal iff their exported dictionaries are equal |
| Menus.Lookup | cli.py:119 | `dict.get` finds a pizza iff some entry has exactly that name, returns that entry's pizza, and with distinct names returns the pizza of every entry carrying the name |
| Menus.LookupAgreesWithDict | cli.py:89-94 | lookup in the entry list equals `get` on the dictionary the literal builds, a later entry replacing an earlier key |
| Menus.StandardHasDistinctNames | cli.py:89-94 | the three menu names are distinct |
| Menus.LookupIsCaseSensitive | cli.py:119 | `Margherita` is found with its ingredients; `margherita` is not found |
| Menus.MenuLineRoundTrip | cli.py:138 | a menu line gives back the entry's name and every ingredient in order |
| Menus.StandardIsListable | cli.py:89-94 | every menu entry has a name without spaces and a non-empty ingredient list without commas, so its line reads back |
| Menus.ShowMenu | cli.py:137-138 | the `menu` command echoes exactly one line per entry, in table order, each the entry's menu line |
| Timing.Log | cli.py:21-41 | the wrapper returns the wrapped call's outcome unchanged. After a normal return it echoes exactly one line, which is the name, ` — `, and then exactly the template filled with the duration. After a raise it echoes nothing |
| Timing.LogLineRoundTrip | cli.py:39-40 | the echoed line splits at the first ` — ` into the function's name and the filled template |
| Timing.DefaultTemplateLine | cli.py:7 | with the default template `'{}'` the echoed line is the name, ` — `, and the duration |
| Timing.LogOutcomeIgnoresDuration | cli.py:36-41 | the outcome and the number of echoed lines are the same for every duration |
| Kitchen.DescriptionRoundTrip | cli.py:152 | the text `<size> - <ingredients>` gives back the size and every ingredient in order |
| Kitchen.DeliveryRoundTrip | cli.py:152 | the delivery message, read after its prefix, gives back the delivered pizza |
| Kitchen.PickupRoundTrip | cli.py:166-168 | the pickup message, read after its prefix, gives back the pizza picked up |
| Kitchen.DeliveryIsNotPickup | cli.py:152-167 | no delivery message equals any pickup message |
| Kitchen.MessagesContainDescription | tests.py:25-36 | the delivery message starts with `Pizza delivered`, the pickup message with `Pizza ready for pickup`, and both contain the pizza's description |
| Kitchen.DeliveryLogged | cli.py:141-152 | decorated `delivery` returns the bare message and echoes `delivery — 🛵 Доставили за <duration>с!` |
| Kitchen.PickupLogged | cli.py:155-168 | decorated `pickup` returns the bare message and echoes `pickup — 🏠 Забрали за <duration>с!` |
| Kitchen.DescribePepperoni | tests.py:26-29 | an XL pizza with tomato sauce, mozzarella and pepperoni is described as `XL - tomato sauce, mozzarella, pepperoni` |
| Kitchen.DescribeHawaiian | tests.py:33-36 | the Hawaiian ingredients at size L are described as `L - tomato sauce, mozzarella, chicken, pineapples` |
| Kitchen.DeliveryOfPepperoni | tests.py:25-29 | delivering the XL pepperoni pizza returns a text containing `Pizza delivered` and `XL - tomato sauce, mozzarella, pepperoni` |
| Kitchen.PickupOfHawaiian | tests.py:32-36 | picking up the Hawaiian pizza returns a text containing `Pizza ready for pickup` and `L - tomato sauce, mozzarella, chicken, pineapples` |
| Ordering.BakedMessageRoundTrip | cli.py:122 | a bake line reports exactly the number of seconds it was made from |
| Ordering.Order | cli.py:106-126 | the last line is always the invalid-pizza message. The order raises iff the name is not on the menu, and then that message is the only line. A known name gives 2 lines, or 3 with delivery. The delivery line appears iff the name is known and the flag is set |
| Ordering.OrderBakeTime | cli.py:119-122 | for every menu and every name that `dict.get` finds, the first line reports 2 seconds when the pizza found has size `L` and 4 otherwise |
| Ordering.OrderMargheritaForPickup | cli.py:118-126 | ordering a Margherita without delivery echoes the 2-second bake line and then the invalid-pizza line, ending normally |
| Ordering.OrderPepperoniForDelivery | cli.py:118-126 | ordering a Pepperoni with delivery echoes the 4-second bake line, the delivery line and the invalid-pizza line |
| Ordering.OrderUnknownPizza | cli.py:119-126 | `Unknown` and `margherita` echo only the invalid-pizza line and end with `AttributeError` |

## Left out

- The click group, argument and option parsing, and the `__main__` entry point (cli.py:97-105, cli.py:171-172) are command-line plumbing. `Order` takes the name and the flag directly.
- `click.echo` is not real output here. Echoed lines are returned as a sequence of strings.
- `time.time()` and the float it subtracts (cli.py:36-38) are left out. This is wall-clock and floating-point behaviour. `Log` takes the duration as the text `template.format` would insert.
- Timing.Log: templates are modelled with exactly one insertion point, as every template in the program has. Other `str.format` features (several fields, format specs, escaped braces) are not modelled.
- Timing.Log: `@wraps` copying `__name__` is modelled by passing the name explicitly. Keyword arguments are folded into the single argument `arg`.
- The process exit code after the `AttributeError` is not modelled. The model records only that the command ends by raising.
- `__eq__` returning `NotImplemented` for a non-`Pizza` operand (cli.py:82-83) is left out, because typing makes the comparison impossible.
- Menus.Lookup: the menu is a list of entries rather than a hash map. With duplicate names, lookup takes the last entry, which matches a dictionary literal. `ShowMenu` lists every entry, which matches the dictionary's items only when the names are distinct, as they are in the program's menu.
- Kitchen.DescriptionRoundTrip, Kitchen.DeliveryRoundTrip, Kitchen.PickupRoundTrip: stated only for pizzas whose size has no space and whose ingredient list is non-empty with no comma in any ingredient. Without that condition, the formatted text does not determine the pizza.
- Menus.MenuLineRoundTrip: stated only for entries whose name has no space and whose ingredient list is non-empty with no comma in any ingredient. The size does not appear in a menu line. Without that condition, the line does not determine the name and ingredients.
- Kitchen.DeliveryOfPepperoni, Kitchen.PickupOfHawaiian: the expected substrings are written as concatenations of their literal pieces, which are the same strings as in the tests.
- `Pizza` is a mutable Python object, and `dict()` hands out the pizza's own ingredient list (cli.py:61, cli.py:70), so changing one changes the other. The model's pizza is an immutable value, and no part of the program relies on that sharing.
- The pytest runner (tests.py:39-40) is left out. The test cases themselves are stated as lemmas.
