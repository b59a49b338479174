# Coffee factory

A Dafny model of a small factory-pattern example. The product interface
`Coffee` has one method, `prepare`. Three concrete coffees (`Expresso`,
`Latte`, `Cappuccino`) each return a fixed message. The factory
`CoffeeMachine.make_coffee` takes a requested name, compares it exactly and
case-sensitively against the three names in that order, and returns the
message of the matching coffee or the fixed string `"Unknown Coffee type!"`.

The model is pure, as the source is:

- `Coffee` is a closed datatype; `Prepare` gives each variant's message and
  `Name` the name the machine tests for it.
- The if/elif chain is `FirstMatch` over the ordered branch list
  `[Expresso, Latte, Cappuccino]`. `Parse` applies it to a request and
  `MakeCoffee` turns the result into the returned string.
- `CoffeeMachine` has no fields, so a machine is not modelled as an object.
  Repeated calls on one machine are `Serve`, one answer per request. The
  lemmas about `Serve` (independence, repetition) record this modelling
  choice: they follow from `MakeCoffee` being a function of its argument
  alone and say nothing further about the dispatch itself.

Files: `wrappers.dfy` (the `Option` datatype) and `coffee_factory.dfy`
(module `CoffeeFactory`).

## Model

| member | source | states |
|---|---|---|
| CoffeeFactory.Name | factory_design_platter.py:73-78 | each variant is selected by one of the three literals "Expresso", "Latte", "Cappuccino" compared at lines 73, 75 and 77 |
| CoffeeFactory.Prepare | factory_design_platter.py:30-49 | each variant's message starts with "Preparing a ", ends with that variant's name and a full stop, and is never the "unknown" message |
| CoffeeFactory.FirstMatch | factory_design_platter.py:73-80 | the if/elif chain: a selected variant is one of the tested branches and its name equals the request; nothing is selected exactly when no tested name equals the request |
| CoffeeFactory.Parse | factory_design_platter.py:73-78 | the request selects variant c exactly when it equals c's name |
| CoffeeFactory.MakeCoffee | factory_design_platter.py:63-80 | a request equal to a variant's name gets that variant's message; a request equal to no name gets "Unknown Coffee type!" |
| CoffeeFactory.Outcomes | factory_design_platter.py:63-80 | the set of possible answers holds every variant's message and the "unknown" message, and has exactly four members |
| CoffeeFactory.Serve | factory_design_platter.py:57-80 | a series of calls on one machine yields exactly one answer per request |
| CoffeeFactory.MakeCoffeeAsWritten | factory_design_platter.py:73-80 | the dispatch equals the source's chain of literal comparisons with its literal messages, for every string |
| CoffeeFactory.KnownRequests | factory_design_platter.py:33-49 | "Expresso", "Latte" and "Cappuccino" get exactly their three documented messages |
| CoffeeFactory.UnknownRequests | factory_design_platter.py:79-80 | the empty string, "Mocha", a lower-case, an upper-case and a space-padded name all get "Unknown Coffee type!" |
| CoffeeFactory.NameInjective | factory_design_platter.py:73-78 | two variants have the same name exactly when they are the same variant |
| CoffeeFactory.NameRoundTrip | factory_design_platter.py:73-78 | parsing a variant's name gives that variant, and the machine answers it with that variant's message |
| CoffeeFactory.ParseRoundTrip | factory_design_platter.py:73-80 | a selected variant's name is the request; nothing is selected exactly when the request is outside {"Expresso", "Latte", "Cappuccino"} |
| CoffeeFactory.UnknownIff | factory_design_platter.py:73-80 | the answer is "Unknown Coffee type!" if and only if the request is none of the three names |
| CoffeeFactory.OutcomesDistinct | factory_design_platter.py:35-80 | the three messages are pairwise distinct and differ from the "unknown" message, so there are exactly four possible answers |
| CoffeeFactory.MakeCoffeeTotal | factory_design_platter.py:63-80 | every request, whatever string it is, is answered with one of the four possible answers |
| CoffeeFactory.AnswerDeterminesBranch | factory_design_platter.py:73-80 | two requests get the same answer exactly when they select the same variant or both select none |
| CoffeeFactory.OrderIrrelevant | factory_design_platter.py:73-78 | testing the same variants in any order selects the same variant, because the names are distinct |
| CoffeeFactory.ServeAt | factory_design_platter.py:57-80 | the i-th answer of a series of calls is the answer to the i-th request alone |
| CoffeeFactory.ServeAppend | factory_design_platter.py:57-80 | earlier calls do not affect later ones: serving two batches in a row gives each batch's own answers |
| CoffeeFactory.ServeRepeated | factory_design_platter.py:57-80 | repeating one request repeats its answer every time |
| CoffeeFactory.DemoAnswers | factory_design_platter.py:87-101 | the driver's three requests get the three messages in order |

## Left out

- The printing in the `__main__` driver (factory_design_platter.py:87-101) is standard-output I/O; only the answers it prints are modelled (DemoAnswers).
- The `abc` machinery (factory_design_platter.py:1-24): Python's refusal to instantiate an abstract class has no behaviour here; the closed datatype `Coffee` replaces it.
- The short-lived `Expresso()`, `Latte()` and `Cappuccino()` instances built by `make_coffee` carry no state; they are datatype values, not heap objects.
- Requests that are not plain strings are not modelled. Built-in non-string values (None, numbers, lists) compare unequal to every name and get "Unknown Coffee type!". Objects with their own `__eq__`, `str` subclasses among them, may select a branch or make the comparison at line 73 raise.
- Requests are strings of Unicode scalar values (a Dafny `char`); a Python `str` holding lone surrogates cannot be expressed. Python answers every such string "Unknown Coffee type!", since none equals a name.
