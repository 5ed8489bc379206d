/**
 * Cart items, the totals computed from them, and the topping selection of
 * the custom-pizza builder, as values. The class in pos.dfy holds the state;
 * this module holds the functions its methods are specified by.
 */
module Cart {
  import opened Wrappers
  import opened Text
  import opened Catalog

  /** One record of the cart list; `type` of the source is the constructor. */
  datatype CartItem =
    | StandardPizza(name: string, price: nat, size: Size)
    | CustomPizza(name: string, price: nat, size: Size, toppings: seq<Topping>)
    | Drink(name: string, price: nat)

  // ---------------------------------------------------------------- totals

  /** Sum of the item prices, added up in cart order starting from zero. */
  function Subtotal(items: seq<CartItem>): nat {
    if items == [] then 0 else Subtotal(items[..|items| - 1]) + items[|items| - 1].price
  }

  lemma {:induction false} SubtotalConcat(a: seq<CartItem>, b: seq<CartItem>)
    ensures Subtotal(a + b) == Subtotal(a) + Subtotal(b)
  {
    if b == [] {
      assert a + b == a;
    } else {
      assert (a + b)[..|a + b| - 1] == a + b[..|b| - 1];
      SubtotalConcat(a, b[..|b| - 1]);
    }
  }

  /** Removing one item lowers the fresh sum by exactly that item's price. */
  lemma SubtotalRemove(items: seq<CartItem>, i: nat)
    requires i < |items|
    ensures Subtotal(items[..i] + items[i + 1..]) + items[i].price == Subtotal(items)
  {
    assert items == items[..i] + ([items[i]] + items[i + 1..]);
    SubtotalConcat(items[..i], [items[i]] + items[i + 1..]);
    SubtotalConcat([items[i]], items[i + 1..]);
    SubtotalConcat(items[..i], items[i + 1..]);
    assert [items[i]][..0] == [];
  }

  /**
   * Tax in cents: the subtotal times the 8 % rate, rounded half-up to a
   * whole cent, so the result is the nearest cent with ties going up.
   */
  function Tax(subtotal: nat): (tax: nat)
    ensures 100 * tax - 50 <= TaxRatePercent * subtotal < 100 * tax + 50
  {
    (TaxRatePercent * subtotal + 50) / 100
  }

  /** No other whole number of cents is within half a cent of subtotal × 8 %. */
  lemma TaxIsNearestCent(subtotal: nat, tax: int)
    requires 100 * tax - 50 <= TaxRatePercent * subtotal < 100 * tax + 50
    ensures tax == Tax(subtotal)
  {
  }

  /** final_total: subtotal plus the already rounded tax, not rounded again. */
  function Total(subtotal: nat): (total: nat)
    ensures total - subtotal == Tax(subtotal)
  {
    subtotal + Tax(subtotal)
  }

  lemma TwentyDollarExample()
    ensures Tax(2000) == 160 && Total(2000) == 2160
  {
  }

  // ----------------------------------------------------- topping selection

  /** One entry of selected_toppings: a topping and its number of portions. */
  datatype ToppingCount = ToppingCount(topping: Topping, count: nat)

  function Keys(sel: seq<ToppingCount>): (ks: seq<Topping>)
    ensures |ks| == |sel| && forall i :: 0 <= i < |sel| ==> ks[i] == sel[i].topping
  {
    seq(|sel|, i requires 0 <= i < |sel| => sel[i].topping)
  }

  /** A Python dictionary has each key once. */
  predicate DistinctKeys(sel: seq<ToppingCount>) {
    forall i, j :: 0 <= i < j < |sel| ==> sel[i].topping != sel[j].topping
  }

  /** Where the entry for t is; `t in selected_toppings` is Find(sel, t).Some?. */
  function Find(sel: seq<ToppingCount>, t: Topping): (r: Option<nat>)
    ensures r.Some? ==> r.value < |sel| && sel[r.value].topping == t
    ensures r.None? <==> forall i :: 0 <= i < |sel| ==> sel[i].topping != t
  {
    if sel == [] then None
    else if sel[|sel| - 1].topping == t then Some(|sel| - 1)
    else Find(sel[..|sel| - 1], t)
  }

  /** selected_toppings.get(t, 0). */
  function Count(sel: seq<ToppingCount>, t: Topping): nat {
    match Find(sel, t)
    case Some(i) => sel[i].count
    case None => 0
  }

  lemma CountAt(sel: seq<ToppingCount>, i: nat)
    requires DistinctKeys(sel) && i < |sel|
    ensures Count(sel, sel[i].topping) == sel[i].count
  {
    var r := Find(sel, sel[i].topping);
    assert r.Some?;
    assert sel[r.value].topping == sel[i].topping;
  }

  /** Setting one entry's count changes that topping's count and no other. */
  lemma CountAfterSet(sel: seq<ToppingCount>, i: nat, c: nat)
    requires DistinctKeys(sel) && i < |sel|
    ensures DistinctKeys(sel[i := ToppingCount(sel[i].topping, c)])
    ensures Keys(sel[i := ToppingCount(sel[i].topping, c)]) == Keys(sel)
    ensures forall u :: Count(sel[i := ToppingCount(sel[i].topping, c)], u)
                        == if u == sel[i].topping then c else Count(sel, u)
  {
    var s' := sel[i := ToppingCount(sel[i].topping, c)];
    assert DistinctKeys(s') by {
      forall a, b | 0 <= a < b < |s'| ensures s'[a].topping != s'[b].topping {
        assert s'[a].topping == sel[a].topping && s'[b].topping == sel[b].topping;
      }
    }
    forall u ensures Count(s', u) == if u == sel[i].topping then c else Count(sel, u) {
      if u == sel[i].topping {
        CountAt(s', i);
      } else if Find(sel, u).Some? {
        var j := Find(sel, u).value;
        CountAt(sel, j);
        CountAt(s', j);
      } else {
        assert Find(s', u).None? by {
          forall k | 0 <= k < |s'| ensures s'[k].topping != u {
            assert s'[k].topping == sel[k].topping;
          }
        }
      }
    }
  }

  /** Adding a new key with count c gives it count c and changes no other count. */
  lemma CountAfterAppend(sel: seq<ToppingCount>, t: Topping, c: nat)
    requires DistinctKeys(sel) && Find(sel, t).None?
    ensures DistinctKeys(sel + [ToppingCount(t, c)])
    ensures forall u :: Count(sel + [ToppingCount(t, c)], u) == if u == t then c else Count(sel, u)
    ensures Find(sel + [ToppingCount(t, c)], t) == Some(|sel|)
    ensures Keys(sel + [ToppingCount(t, c)]) == Keys(sel) + [t]
  {
    var s' := sel + [ToppingCount(t, c)];
    assert s'[..|s'| - 1] == sel;
  }

  /** Σ count × unit price over the entries, in insertion order. */
  function ToppingCost(sel: seq<ToppingCount>): nat {
    if sel == [] then 0
    else ToppingCost(sel[..|sel| - 1]) + sel[|sel| - 1].count * ToppingPrice(sel[|sel| - 1].topping)
  }

  /** The same charge taken topping by topping over a menu: N portions cost N × unit price. */
  function MenuCost(sel: seq<ToppingCount>, menu: seq<Topping>): int {
    if menu == [] then 0
    else MenuCost(sel, menu[..|menu| - 1]) + Count(sel, menu[|menu| - 1]) * ToppingPrice(menu[|menu| - 1])
  }

  lemma {:induction false} MenuCostAfterAppend(p: seq<ToppingCount>, e: ToppingCount, menu: seq<Topping>)
    requires DistinctKeys(p) && Find(p, e.topping).None?
    requires forall i, j :: 0 <= i < j < |menu| ==> menu[i] != menu[j]
    ensures MenuCost(p + [e], menu)
            == MenuCost(p, menu) + (if e.topping in menu then e.count * ToppingPrice(e.topping) else 0)
  {
    if menu != [] {
      var m, x := menu[..|menu| - 1], menu[|menu| - 1];
      assert menu == m + [x];
      assert x !in m;
      assert (e.topping in menu) == (e.topping in m || e.topping == x);
      MenuCostAfterAppend(p, e, m);
      var extra := if e.topping in m then e.count * ToppingPrice(e.topping) else 0;
      assert MenuCost(p + [e], m) == MenuCost(p, m) + extra;
      var before, after := Count(p, x), Count(p + [e], x);
      assert after == if x == e.topping then e.count else before by {
        CountAfterAppend(p, e.topping, e.count);
        assert p + [e] == p + [ToppingCount(e.topping, e.count)];
      }
      assert before == 0 || x != e.topping;
      assert MenuCost(p + [e], menu) == MenuCost(p + [e], m) + after * ToppingPrice(x);
      assert MenuCost(p, menu) == MenuCost(p, m) + before * ToppingPrice(x);
    }
  }

  lemma {:induction false} MenuCostOfNothing(menu: seq<Topping>)
    ensures MenuCost([], menu) == 0
  {
    if menu != [] {
      MenuCostOfNothing(menu[..|menu| - 1]);
      assert Count([], menu[|menu| - 1]) == 0;
    }
  }

  lemma {:induction false} ToppingCostByTopping(sel: seq<ToppingCount>)
    requires DistinctKeys(sel)
    ensures ToppingCost(sel) == MenuCost(sel, ToppingMenu)
  {
    if sel == [] {
      MenuCostOfNothing(ToppingMenu);
    } else {
      var p, e := sel[..|sel| - 1], sel[|sel| - 1];
      assert sel == p + [e];
      assert DistinctKeys(p);
      assert Find(p, e.topping).None?;
      ToppingCostByTopping(p);
      EveryToppingOnMenu(e.topping);
      MenuCostAfterAppend(p, e, ToppingMenu);
    }
  }

  /** topping_groups: the entries with a non-zero count, in insertion order. */
  function Groups(sel: seq<ToppingCount>): seq<ToppingCount> {
    if sel == [] then []
    else Groups(sel[..|sel| - 1]) + (if sel[|sel| - 1].count > 0 then [sel[|sel| - 1]] else [])
  }

  lemma {:induction false} GroupsMembers(sel: seq<ToppingCount>)
    ensures forall g :: g in Groups(sel) <==> g in sel && g.count > 0
  {
    if sel != [] {
      var p := sel[..|sel| - 1];
      GroupsMembers(p);
      assert sel == p + [sel[|sel| - 1]];
    }
  }

  /** Two listed entries appear in Groups in the order they were inserted. */
  lemma {:induction false} GroupsOrder(sel: seq<ToppingCount>, i: nat, j: nat)
    requires i < j < |sel| && sel[i].count > 0 && sel[j].count > 0
    ensures exists a, b :: 0 <= a < b < |Groups(sel)| && Groups(sel)[a] == sel[i] && Groups(sel)[b] == sel[j]
  {
    var p := sel[..|sel| - 1];
    var g := Groups(sel);
    if j == |sel| - 1 {
      GroupsMembers(p);
      assert sel[i] == p[i];
      var a :| 0 <= a < |Groups(p)| && Groups(p)[a] == sel[i];
      assert g[a] == sel[i] && g[|Groups(p)|] == sel[j];
    } else {
      GroupsOrder(p, i, j);
      var a, b :| 0 <= a < b < |Groups(p)| && Groups(p)[a] == p[i] && Groups(p)[b] == p[j];
      assert g[a] == sel[i] && g[b] == sel[j];
    }
  }

  /** Grouping keeps the keys distinct: each listed topping appears once. */
  lemma {:induction false} GroupsDistinct(sel: seq<ToppingCount>)
    requires DistinctKeys(sel)
    ensures DistinctKeys(Groups(sel))
  {
    if sel != [] {
      var p, e := sel[..|sel| - 1], sel[|sel| - 1];
      assert DistinctKeys(p);
      GroupsDistinct(p);
      GroupsMembers(p);
      if e.count > 0 {
        var g := Groups(sel);
        forall a | 0 <= a < |Groups(p)| ensures g[a].topping != e.topping {
          assert Groups(p)[a] in p;
          var i :| 0 <= i < |p| && p[i] == Groups(p)[a];
          assert sel[i] == p[i];
        }
      }
    }
  }

  /** The toppings of the grouped entries are exactly those with a positive count. */
  lemma GroupKeysMembers(sel: seq<ToppingCount>)
    requires DistinctKeys(sel)
    ensures forall t :: t in Keys(Groups(sel)) <==> Count(sel, t) > 0
  {
    GroupsMembers(sel);
    var g := Groups(sel);
    var ks := Keys(g);
    forall t ensures t in ks <==> Count(sel, t) > 0 {
      if t in ks {
        var a :| 0 <= a < |ks| && ks[a] == t;
        assert g[a] in g;
        var i :| 0 <= i < |sel| && sel[i] == g[a];
        CountAt(sel, i);
      }
      if Count(sel, t) > 0 {
        var i := Find(sel, t).value;
        assert sel[i] in sel;
        var a :| 0 <= a < |g| && g[a] == sel[i];
        assert ks[a] == t;
      }
    }
  }

  /** ... each of them once, in insertion order. */
  lemma GroupKeysInOrder(sel: seq<ToppingCount>)
    requires DistinctKeys(sel)
    ensures var ks := Keys(Groups(sel));
            forall a, b :: 0 <= a < b < |ks| ==> ks[a] != ks[b]
    ensures var ks := Keys(Groups(sel));
            forall i, j :: 0 <= i < j < |sel| && sel[i].count > 0 && sel[j].count > 0 ==>
              exists a, b :: 0 <= a < b < |ks| && ks[a] == sel[i].topping && ks[b] == sel[j].topping
  {
    GroupsDistinct(sel);
    var g := Groups(sel);
    var ks := Keys(g);
    forall i, j | 0 <= i < j < |sel| && sel[i].count > 0 && sel[j].count > 0
      ensures exists a, b :: 0 <= a < b < |ks| && ks[a] == sel[i].topping && ks[b] == sel[j].topping
    {
      GroupsOrder(sel, i, j);
      var a, b :| 0 <= a < b < |g| && g[a] == sel[i] && g[b] == sel[j];
      assert ks[a] == sel[i].topping && ks[b] == sel[j].topping;
    }
  }

  /** Entries with count 0 add nothing: the price depends only on the listed toppings. */
  lemma {:induction false} ToppingCostGroups(sel: seq<ToppingCount>)
    ensures ToppingCost(Groups(sel)) == ToppingCost(sel)
  {
    if sel != [] {
      var p, e := sel[..|sel| - 1], sel[|sel| - 1];
      ToppingCostGroups(p);
      assert ToppingCost(sel) == ToppingCost(p) + e.count * ToppingPrice(e.topping);
      if e.count > 0 {
        var g := Groups(p) + [e];
        assert Groups(sel) == g;
        assert g[..|g| - 1] == Groups(p);
        assert ToppingCost(g) == ToppingCost(Groups(p)) + e.count * ToppingPrice(e.topping);
      } else {
        assert Groups(sel) == Groups(p) + [] == Groups(p);
        assert e.count * ToppingPrice(e.topping) == 0;
      }
    }
  }

  /** Some topping has a non-zero count. */
  predicate AnyTopping(sel: seq<ToppingCount>) {
    exists i :: 0 <= i < |sel| && sel[i].count > 0
  }

  /** The has_toppings scan of add_pizza_to_order, stopping at the first non-zero count. */
  method HasToppings(sel: seq<ToppingCount>) returns (has: bool)
    ensures has <==> AnyTopping(sel)
  {
    has := false;
    var i := 0;
    while i < |sel|
      invariant 0 <= i <= |sel|
      invariant forall k :: 0 <= k < i ==> sel[k].count == 0
    {
      if sel[i].count > 0 {
        has := true;
        break;
      }
      i := i + 1;
    }
  }

  /**
   * The loop of add_custom_pizza: keep the entries with a non-zero count in
   * insertion order, and add each topping's unit price once per portion.
   */
  method GroupAndPrice(sel: seq<ToppingCount>) returns (groups: seq<ToppingCount>, toppingPrice: nat)
    ensures groups == Groups(sel) && toppingPrice == ToppingCost(sel)
  {
    groups := [];
    toppingPrice := 0;
    for i := 0 to |sel|
      invariant toppingPrice == ToppingCost(sel[..i])
      invariant groups == Groups(sel[..i])
    {
      assert sel[..i + 1][..i] == sel[..i];
      var e := sel[i];
      if e.count > 0 {
        groups := groups + [e];
        for j := 0 to e.count
          invariant toppingPrice == ToppingCost(sel[..i]) + j * ToppingPrice(e.topping)
        {
          toppingPrice := toppingPrice + ToppingPrice(e.topping);
        }
      } else {
        assert e.count * ToppingPrice(e.topping) == 0;
      }
    }
    assert sel[..|sel|] == sel;
  }

  /** The "Plain" description is only reachable without toppings. */
  lemma AnyToppingListed(sel: seq<ToppingCount>)
    ensures AnyTopping(sel) <==> Groups(sel) != []
  {
    GroupsMembers(sel);
    if AnyTopping(sel) {
      var i :| 0 <= i < |sel| && sel[i].count > 0;
      assert sel[i] in sel;
    }
  }

  // ----------------------------------------------------------- new items

  /** The description of one listed topping: "name xN". */
  function ToppingLabel(g: ToppingCount): string {
    ToppingName(g.topping) + " x" + NatToString(g.count)
  }

  function ToppingLabels(groups: seq<ToppingCount>): (labels: seq<string>)
    ensures |labels| == |groups| && forall i :: 0 <= i < |groups| ==> labels[i] == ToppingLabel(groups[i])
  {
    seq(|groups|, i requires 0 <= i < |groups| => ToppingLabel(groups[i]))
  }

  function CustomDescription(z: Size, groups: seq<ToppingCount>): string {
    "Custom Pizza (" + SizeTitle(z) + ") - "
    + (if groups != [] then Join(ToppingLabels(groups), ", ") else "Plain")
  }

  /** The record add_custom_pizza appends for the given size and selection. */
  function CustomPizzaItem(z: Size, sel: seq<ToppingCount>): CartItem {
    var groups := Groups(sel);
    CustomPizza(CustomDescription(z, groups), PizzaPrice(z) + ToppingCost(sel), z, Keys(groups))
  }

  /** What a validated custom pizza costs and says. */
  lemma CustomPizzaItemMeaning(z: Size, sel: seq<ToppingCount>)
    requires DistinctKeys(sel) && AnyTopping(sel)
    ensures CustomPizzaItem(z, sel).price == PizzaPrice(z) + MenuCost(sel, ToppingMenu)
    ensures CustomPizzaItem(z, sel).name
            == "Custom Pizza (" + SizeTitle(z) + ") - " + Join(ToppingLabels(Groups(sel)), ", ")
    ensures forall t :: t in CustomPizzaItem(z, sel).toppings <==> Count(sel, t) > 0
    ensures DistinctKeys(Groups(sel))
    ensures var ks := CustomPizzaItem(z, sel).toppings;
            forall a, b :: 0 <= a < b < |ks| ==> ks[a] != ks[b]
    ensures var ks := CustomPizzaItem(z, sel).toppings;
            forall i, j :: 0 <= i < j < |sel| && sel[i].count > 0 && sel[j].count > 0 ==>
              exists a, b :: 0 <= a < b < |ks| && ks[a] == sel[i].topping && ks[b] == sel[j].topping
  {
    GroupsDistinct(sel);
    GroupKeysMembers(sel);
    GroupKeysInOrder(sel);
    ToppingCostByTopping(sel);
    AnyToppingListed(sel);
    assert CustomPizzaItem(z, sel).toppings == Keys(Groups(sel));
  }

  lemma MediumPepperoniBaconPrice()
    ensures CustomPizzaItem(Medium, [ToppingCount(Pepperoni, 2), ToppingCount(Bacon, 1)]).price == 2099
  {
    var sel := [ToppingCount(Pepperoni, 2), ToppingCount(Bacon, 1)];
    assert sel[..1] == [ToppingCount(Pepperoni, 2)];
    assert [ToppingCount(Pepperoni, 2)][..0] == [];
  }

  lemma MediumPepperoniBaconName()
    ensures CustomPizzaItem(Medium, [ToppingCount(Pepperoni, 2), ToppingCount(Bacon, 1)]).name
            == "Custom Pizza (Medium) - Pepperoni x2, Bacon x1"
  {
    var sel := [ToppingCount(Pepperoni, 2), ToppingCount(Bacon, 1)];
    PepperoniBaconGroups();
    PepperoniBaconLabels();
    PepperoniBaconJoin();
    assert CustomPizzaItem(Medium, sel).name == CustomDescription(Medium, sel);
    assert CustomDescription(Medium, sel) == "Custom Pizza (" + "Medium" + ") - " + "Pepperoni x2, Bacon x1";
    MediumTitleText();
  }

  lemma MediumTitleText()
    ensures "Custom Pizza (" + "Medium" + ") - " + "Pepperoni x2, Bacon x1" == "Custom Pizza (Medium) - Pepperoni x2, Bacon x1"
  {
  }

  lemma PepperoniBaconGroups()
    ensures Groups([ToppingCount(Pepperoni, 2), ToppingCount(Bacon, 1)]) == [ToppingCount(Pepperoni, 2), ToppingCount(Bacon, 1)]
  {
    var sel := [ToppingCount(Pepperoni, 2), ToppingCount(Bacon, 1)];
    assert sel[..1] == [ToppingCount(Pepperoni, 2)];
    assert [ToppingCount(Pepperoni, 2)][..0] == [];
  }

  lemma PepperoniBaconJoin()
    ensures Join(["Pepperoni x2", "Bacon x1"], ", ") == "Pepperoni x2, Bacon x1"
  {
    var labels := ["Pepperoni x2", "Bacon x1"];
    assert labels[..1] == ["Pepperoni x2"];
  }

  lemma PepperoniBaconLabels()
    ensures ToppingLabels([ToppingCount(Pepperoni, 2), ToppingCount(Bacon, 1)]) == ["Pepperoni x2", "Bacon x1"]
  {
    assert NatToString(2) == "2" by { assert DigitChar(2) == '2'; }
    assert NatToString(1) == "1" by { assert DigitChar(1) == '1'; }
    var labels := ToppingLabels([ToppingCount(Pepperoni, 2), ToppingCount(Bacon, 1)]);
    assert labels[0] == "Pepperoni x2";
    assert labels[1] == "Bacon x1";
  }

  /** The size dialog accepts a size's name in any of the spellings the menu shows. */
  lemma SizeAnswerAccepted(z: Size)
    ensures ParseSize(ToLower(SizeName(z))) == Some(z)
    ensures ParseSize(ToLower(SizeTitle(z))) == Some(z)
  {
    ToLowerOfLower(SizeName(z));
    var t := SizeTitle(z);
    assert ToLower(t) == SizeName(z) by {
      assert LowerChar(t[0]) == SizeName(z)[0];
    }
  }

  /** The record add_standard_pizza appends: "<name> (<Size>)" at the base price. */
  function StandardPizzaItem(pizzaName: string, z: Size): CartItem {
    StandardPizza(pizzaName + " (" + SizeTitle(z) + ")", PizzaPrice(z), z)
  }
}
