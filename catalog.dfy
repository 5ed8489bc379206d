/**
 * The fixed price tables and tax rate of the point-of-sale application.
 * Every amount has two fraction digits in the source, so money is a number
 * of cents here.
 */
module Catalog {
  import opened Wrappers

  /** The keys of the pizza price table. */
  datatype Size = Small | Medium | Large

  function SizeName(z: Size): string {
    match z
    case Small => "small"
    case Medium => "medium"
    case Large => "large"
  }

  /** str.title() of the size name, as shown in item descriptions. */
  function SizeTitle(z: Size): string {
    match z
    case Small => "Small"
    case Medium => "Medium"
    case Large => "Large"
  }

  /** Base price of a pizza of the given size, in cents. */
  function PizzaPrice(z: Size): nat {
    match z
    case Small => 1299
    case Medium => 1599
    case Large => 1899
  }

  /** Membership of an (already lower-cased) answer in the pizza price table. */
  function ParseSize(s: string): (r: Option<Size>)
    ensures forall z :: r == Some(z) <==> s == SizeName(z)
  {
    if s == "small" then Some(Small)
    else if s == "medium" then Some(Medium)
    else if s == "large" then Some(Large)
    else None
  }

  /** The keys of the topping price table. */
  datatype Topping = Pepperoni | Sausage | Bacon | Pineapple | Mushrooms | Onions

  function ToppingName(t: Topping): string {
    match t
    case Pepperoni => "Pepperoni"
    case Sausage => "Sausage"
    case Bacon => "Bacon"
    case Pineapple => "Pineapple"
    case Mushrooms => "Mushrooms"
    case Onions => "Onions"
  }

  /** The keys of the topping price table, in its insertion order. */
  const ToppingMenu: seq<Topping> := [Pepperoni, Sausage, Bacon, Pineapple, Mushrooms, Onions]

  lemma EveryToppingOnMenu(t: Topping)
    ensures t in ToppingMenu
    ensures forall i, j :: 0 <= i < j < |ToppingMenu| ==> ToppingMenu[i] != ToppingMenu[j]
  {
  }

  /** Unit price of one portion of a topping, in cents. */
  function ToppingPrice(t: Topping): nat {
    match t
    case Pepperoni => 150
    case Sausage => 150
    case Bacon => 200
    case Pineapple => 100
    case Mushrooms => 100
    case Onions => 100
  }

  /** The drink price table, in its insertion order: (name, cents). */
  const DrinkMenu: seq<(string, nat)> :=
    [("Coca-Cola", 250), ("Pepsi", 250), ("Sprite", 250), ("Water", 150), ("Orange Juice", 300)]

  /** tax_rate = 0.08, as a percentage. */
  const TaxRatePercent: nat := 8
}
