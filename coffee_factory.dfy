/**
  The coffee factory: a closed set of coffee variants, each with a fixed
  preparation message, and the coffee machine that maps a requested name to
  the message of the matching variant, or to a fixed "unknown" message.

  The abstract `Coffee` base class with its `prepare` method becomes the
  closed datatype `Coffee` and the function `Prepare`; the machine has no
  fields, so `make_coffee` becomes the pure function `MakeCoffee`.
 */
module CoffeeFactory {

  import opened Wrappers

  /** The three concrete coffee variants. */
  datatype Coffee = Expresso | Latte | Cappuccino

  /** The message returned for a name that matches no variant. */
  const UnknownCoffee: string := "Unknown Coffee type!"

  /** The common beginning of every preparation message. */
  const Preparing: string := "Preparing a "

  /** The name the machine compares a request against to select `c`. */
  function Name(c: Coffee): (name: string)
    ensures name in {"Expresso", "Latte", "Cappuccino"}
  {
    match c
    case Expresso => "Expresso"
    case Latte => "Latte"
    case Cappuccino => "Cappuccino"
  }

  /** `prepare` of each variant: a constant message that starts with
      "Preparing a ", ends with the variant's own name and a full stop,
      and is never the "unknown" message. */
  function Prepare(c: Coffee): (msg: string)
    ensures Preparing <= msg
    ensures |msg| > |Name(c)| && msg[|msg| - |Name(c)| - 1..] == Name(c) + "."
    ensures msg != UnknownCoffee
  {
    match c
    case Expresso => "Preparing a rich and strong Expresso."
    case Latte => "Preparing a smooth and creamy Latte."
    case Cappuccino => "Preparing a frothy Cappuccino."
  }

  /** The variants in the order in which the machine tests their names. */
  const Branches: seq<Coffee> := [Expresso, Latte, Cappuccino]

  /** An if/elif chain of exact string comparisons over `branches`: the
      first variant whose name equals `s`, or None when no test succeeds. */
  function FirstMatch(branches: seq<Coffee>, s: string): (r: Option<Coffee>)
    ensures r.Some? ==> r.value in branches && Name(r.value) == s
    ensures r.None? <==> forall c :: c in branches ==> Name(c) != s
  {
    if branches == [] then None
    else if s == Name(branches[0]) then Some(branches[0])
    else FirstMatch(branches[1..], s)
  }

  /** The variant the machine selects for the request `s`, if any. */
  function Parse(s: string): (r: Option<Coffee>)
    ensures forall c :: r == Some(c) <==> Name(c) == s
  {
    FirstMatch(Branches, s)
  }

  /** `make_coffee`: the selected variant's message, or the "unknown"
      message when no variant's name equals the request exactly. */
  function MakeCoffee(s: string): (r: string)
    ensures forall c :: Name(c) == s ==> r == Prepare(c)
    ensures (forall c :: Name(c) != s) ==> r == UnknownCoffee
  {
    match Parse(s)
    case Some(c) => Prepare(c)
    case None => UnknownCoffee
  }

  /** The four strings the machine can ever return: every variant's
      message and the "unknown" message, all distinct. */
  function Outcomes(): (o: set<string>)
    ensures UnknownCoffee in o
    ensures forall c :: Prepare(c) in o
    ensures |o| == 4
  {
    {Prepare(Expresso), Prepare(Latte), Prepare(Cappuccino), UnknownCoffee}
  }

  /** A sequence of requests put to one machine, one answer per request. */
  function Serve(orders: seq<string>): (answers: seq<string>)
    ensures |answers| == |orders|
  {
    if orders == [] then [] else [MakeCoffee(orders[0])] + Serve(orders[1..])
  }

  // ---------------------------------------------------------------------
  // Properties of the dispatch
  // ---------------------------------------------------------------------

  /** The machine written out as the chain of literal comparisons it is. */
  lemma MakeCoffeeAsWritten(s: string)
    ensures MakeCoffee(s) ==
      if s == "Expresso" then "Preparing a rich and strong Expresso."
      else if s == "Latte" then "Preparing a smooth and creamy Latte."
      else if s == "Cappuccino" then "Preparing a frothy Cappuccino."
      else "Unknown Coffee type!"
  {
    if s == "Expresso" {
      assert Name(Expresso) == s;
    } else if s == "Latte" {
      assert Name(Latte) == s;
    } else if s == "Cappuccino" {
      assert Name(Cappuccino) == s;
    } else {
      forall c ensures Name(c) != s {
      }
    }
  }

  /** The three known names get their documented messages. */
  lemma KnownRequests()
    ensures MakeCoffee("Expresso") == "Preparing a rich and strong Expresso."
    ensures MakeCoffee("Latte") == "Preparing a smooth and creamy Latte."
    ensures MakeCoffee("Cappuccino") == "Preparing a frothy Cappuccino."
  {
  }

  /** Requests that are not exactly one of the names, such as an empty,
      a differently cased or a padded name, get the "unknown" message. */
  lemma UnknownRequests()
    ensures MakeCoffee("") == UnknownCoffee
    ensures MakeCoffee("Mocha") == UnknownCoffee
    ensures MakeCoffee("latte") == UnknownCoffee
    ensures MakeCoffee(" Latte") == UnknownCoffee
    ensures MakeCoffee("Latte ") == UnknownCoffee
    ensures MakeCoffee("EXPRESSO") == UnknownCoffee
  {
  }

  /** Distinct variants are selected by distinct names. */
  lemma NameInjective(c: Coffee, d: Coffee)
    ensures Name(c) == Name(d) <==> c == d
  {
  }

  /** Round trip: the name of a variant selects that variant, and the
      machine answers it with that variant's message. */
  lemma NameRoundTrip(c: Coffee)
    ensures Parse(Name(c)) == Some(c)
    ensures MakeCoffee(Name(c)) == Prepare(c)
  {
  }

  /** Parsing recovers a name: whatever is selected was asked for by name. */
  lemma ParseRoundTrip(s: string)
    ensures Parse(s).Some? ==> Name(Parse(s).value) == s
    ensures Parse(s).None? <==> s !in {"Expresso", "Latte", "Cappuccino"}
  {
  }

  /** A request gets the "unknown" message exactly when it is none of
      the three names. */
  lemma UnknownIff(s: string)
    ensures MakeCoffee(s) == UnknownCoffee <==> forall c :: Name(c) != s
  {
  }

  /** The messages of distinct variants differ, and none is the
      "unknown" message: the four outcomes are pairwise distinct. */
  lemma OutcomesDistinct(c: Coffee, d: Coffee)
    ensures Prepare(c) == Prepare(d) <==> c == d
    ensures Prepare(c) != UnknownCoffee
    ensures |Outcomes()| == 4
  {
  }

  /** Totality: every request is answered with one of the four outcomes. */
  lemma MakeCoffeeTotal(s: string)
    ensures MakeCoffee(s) in Outcomes()
  {
  }

  /** The answer determines which branch was taken: two requests get the
      same answer exactly when they select the same variant (or none). */
  lemma AnswerDeterminesBranch(s: string, t: string)
    ensures MakeCoffee(s) == MakeCoffee(t) <==> Parse(s) == Parse(t)
  {
    match (Parse(s), Parse(t))
    case (Some(c), Some(d)) => OutcomesDistinct(c, d);
    case (Some(c), None) => OutcomesDistinct(c, c);
    case (None, Some(d)) => OutcomesDistinct(d, d);
    case (None, None) =>
  }

  /** The order of the comparisons does not matter: because the names are
      distinct, any ordering of the same variants selects the same one. */
  lemma {:induction false} OrderIrrelevant(p: seq<Coffee>, q: seq<Coffee>, s: string)
    requires forall c :: c in p <==> c in q
    ensures FirstMatch(p, s) == FirstMatch(q, s)
  {
    var r, r' := FirstMatch(p, s), FirstMatch(q, s);
    if r.Some? && r'.Some? {
      NameInjective(r.value, r'.value);
    }
  }

  // ---------------------------------------------------------------------
  // Properties of repeated calls
  // ---------------------------------------------------------------------

  /** Each answer depends on its own request only. */
  lemma {:induction false} ServeAt(orders: seq<string>, i: nat)
    requires i < |orders|
    ensures Serve(orders)[i] == MakeCoffee(orders[i])
  {
    if i > 0 {
      ServeAt(orders[1..], i - 1);
    }
  }

  /** Earlier requests do not affect later ones: serving two batches in a
      row gives the answers of serving each batch on its own. */
  lemma {:induction false} ServeAppend(a: seq<string>, b: seq<string>)
    ensures Serve(a + b) == Serve(a) + Serve(b)
  {
    if a == [] {
      assert a + b == b;
    } else {
      assert (a + b)[1..] == a[1..] + b;
      ServeAppend(a[1..], b);
    }
  }

  /** Repeating a request repeats its answer. */
  lemma {:induction false} ServeRepeated(orders: seq<string>, s: string)
    requires forall i :: 0 <= i < |orders| ==> orders[i] == s
    ensures forall i :: 0 <= i < |orders| ==> Serve(orders)[i] == MakeCoffee(s)
  {
    forall i | 0 <= i < |orders| ensures Serve(orders)[i] == MakeCoffee(s) {
      ServeAt(orders, i);
    }
  }

  /** The three requests of the demonstration driver and their answers. */
  lemma DemoAnswers()
    ensures Serve(["Expresso", "Latte", "Cappuccino"]) ==
      ["Preparing a rich and strong Expresso.",
       "Preparing a smooth and creamy Latte.",
       "Preparing a frothy Cappuccino."]
  {
  }
}
