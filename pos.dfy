/**
 * The running point-of-sale session: the users and orders tables, the
 * logged-in user, the cart with its running subtotal, and the selection of
 * the custom-pizza dialog. Every button handler that changes one of these
 * is a method of PizzaPos.
 */
module Pos {
  import opened Wrappers
  import opened Text
  import opened Catalog
  import opened Cart
  import opened Accounts

  /** One row of the orders table; items is the cart as it was when the order was placed. */
  datatype Order = Order(id: nat, userId: nat, items: seq<CartItem>, subtotal: nat, tax: nat, total: nat)

  /**
   * Ids are increasing and below the AUTOINCREMENT counter, every order was
   * placed by a user id that has been handed out, and the stored amounts
   * are the ones the cart's items add up to.
   */
  predicate OrdersOk(orders: seq<Order>, nextOrderId: nat, nextUserId: nat) {
    && (forall i, j :: 0 <= i < j < |orders| ==> orders[i].id < orders[j].id)
    && (forall i :: 0 <= i < |orders| ==> orders[i].id < nextOrderId && orders[i].userId < nextUserId)
    && (forall i :: 0 <= i < |orders| ==>
          && orders[i].items != []
          && orders[i].subtotal == Subtotal(orders[i].items)
          && orders[i].tax == Tax(orders[i].subtotal)
          && orders[i].total == Total(orders[i].subtotal))
  }

  /**
   * What the stored tables and the session promise together: the users
   * table keeps its invariant, the orders table is consistent, and the
   * logged-in user's row exists.
   */
  predicate StoreInvariant(users: seq<User>, nextUserId: nat, orders: seq<Order>, nextOrderId: nat,
                           currentUser: Option<Session>) {
    && TableOk(users, nextUserId)
    && OrdersOk(orders, nextOrderId, nextUserId)
    && (currentUser.Some? ==> HasId(users, currentUser.value.id))
  }

  /** Handing out more user ids keeps the orders table consistent. */
  lemma OrdersOkForMoreUsers(orders: seq<Order>, nextOrderId: nat, nextUserId: nat, later: nat)
    requires OrdersOk(orders, nextOrderId, nextUserId) && nextUserId <= later
    ensures OrdersOk(orders, nextOrderId, later)
  {
  }

  /** Seeding keeps the store invariant, with the counter moved past the new rows. */
  lemma SeedKeepsStore(users: seq<User>, nextUserId: nat, orders: seq<Order>, nextOrderId: nat,
                       currentUser: Option<Session>)
    requires StoreInvariant(users, nextUserId, orders, nextOrderId, currentUser)
    requires SeedDefaults(users, nextUserId).Success?
    ensures var r := SeedDefaults(users, nextUserId).value;
            StoreInvariant(r, nextUserId + |r| - |users|, orders, nextOrderId, currentUser)
  {
    var r := SeedDefaults(users, nextUserId).value;
    SeedKeepsTable(users, nextUserId);
    OrdersOkForMoreUsers(orders, nextOrderId, nextUserId, nextUserId + |r| - |users|);
    if currentUser.Some? {
      PrefixKeepsIds(users, r, currentUser.value.id);
    }
  }

  /** An accepted INSERT with the next id keeps the store invariant. */
  lemma InsertKeepsStore(users: seq<User>, nextUserId: nat, orders: seq<Order>, nextOrderId: nat,
                         currentUser: Option<Session>, name: string, pin: string, isAdmin: bool)
    requires StoreInvariant(users, nextUserId, orders, nextOrderId, currentUser)
    requires name != [] && PinIsValid(pin)
    requires InsertUser(users, User(nextUserId, name, pin, isAdmin)).Success?
    ensures StoreInvariant(users + [User(nextUserId, name, pin, isAdmin)], nextUserId + 1, orders, nextOrderId, currentUser)
  {
    InsertKeepsTable(users, User(nextUserId, name, pin, isAdmin));
    OrdersOkForMoreUsers(orders, nextOrderId, nextUserId, nextUserId + 1);
    if currentUser.Some? {
      PrefixKeepsIds(users, users + [User(nextUserId, name, pin, isAdmin)], currentUser.value.id);
    }
  }

  /** An accepted UPDATE of a row's name, PIN and flag keeps the store invariant. */
  lemma UpdateKeepsStore(users: seq<User>, nextUserId: nat, orders: seq<Order>, nextOrderId: nat,
                         currentUser: Option<Session>, target: string, name: string, pin: string, isAdmin: bool)
    requires StoreInvariant(users, nextUserId, orders, nextOrderId, currentUser)
    requires name != [] && PinIsValid(pin)
    requires UpdateByName(users, target, name, pin, isAdmin).Success?
    ensures StoreInvariant(UpdateByName(users, target, name, pin, isAdmin).value, nextUserId, orders, nextOrderId, currentUser)
  {
    UpdateKeepsTable(users, nextUserId, target, name, pin, isAdmin);
    if currentUser.Some? {
      UpdateKeepsIds(users, target, name, pin, isAdmin, currentUser.value.id);
    }
  }

  /** A PIN reset to four digits keeps the store invariant. */
  lemma SetPinKeepsStore(users: seq<User>, nextUserId: nat, orders: seq<Order>, nextOrderId: nat,
                         currentUser: Option<Session>, target: string, pin: string)
    requires StoreInvariant(users, nextUserId, orders, nextOrderId, currentUser)
    requires PinIsValid(pin)
    ensures StoreInvariant(SetPin(users, target, pin), nextUserId, orders, nextOrderId, currentUser)
  {
    SetPinKeepsTable(users, nextUserId, target, pin);
    if currentUser.Some? {
      SetPinKeepsIds(users, target, pin, currentUser.value.id);
    }
  }

  /** A DELETE that the guard on row ids lets through keeps the store invariant. */
  lemma DeleteKeepsStore(users: seq<User>, nextUserId: nat, orders: seq<Order>, nextOrderId: nat,
                         session: Session, target: string)
    requires StoreInvariant(users, nextUserId, orders, nextOrderId, Some(session))
    requires !RefusesDeletion(users, session, target)
    ensures StoreInvariant(DeleteByName(users, target), nextUserId, orders, nextOrderId, Some(session))
  {
    DeleteKeepsTable(users, nextUserId, target);
    DeletionKeepsOwnAccount(users, nextUserId, session, target);
  }

  /** A session taken from an existing row keeps the store invariant. */
  lemma LoginKeepsStore(users: seq<User>, nextUserId: nat, orders: seq<Order>, nextOrderId: nat,
                        currentUser: Option<Session>, rawName: string, rawPin: string)
    requires StoreInvariant(users, nextUserId, orders, nextOrderId, currentUser)
    requires CheckLogin(users, rawName, rawPin).Success?
    ensures StoreInvariant(users, nextUserId, orders, nextOrderId, Some(CheckLogin(users, rawName, rawPin).value))
  {
  }

  /** Recording a non-empty cart of a logged-in user at its fresh amounts keeps the store invariant. */
  lemma OrderKeepsStore(users: seq<User>, nextUserId: nat, orders: seq<Order>, nextOrderId: nat,
                        session: Session, items: seq<CartItem>)
    requires StoreInvariant(users, nextUserId, orders, nextOrderId, Some(session))
    requires items != []
    ensures var s := Subtotal(items);
            StoreInvariant(users, nextUserId, orders + [Order(nextOrderId, session.id, items, s, Tax(s), Total(s))],
                           nextOrderId + 1, Some(session))
  {
    var u :| u in users && u.id == session.id;
    var k :| 0 <= k < |users| && users[k] == u;
  }

  datatype StandardOutcome = NoSize | UnknownSize | StandardAdded
  datatype CustomOutcome = SizeRequired | ToppingsRequired | CustomAdded
  datatype OrderOutcome = EmptyCart | OrderDeclined | OrderProcessed(order: Order)
  datatype EditOutcome = RejectedInput(reason: InputError) | NameInUse | NoSuchUser | Saved
  datatype DeleteOutcome = OwnAccount | DeleteDeclined | Deleted
  datatype ResetOutcome = ResetCancelled | ResetRejected | PinReset

  class PizzaPos {
    var users: seq<User>
    var nextUserId: nat
    var orders: seq<Order>
    var nextOrderId: nat
    var currentUser: Option<Session>
    var cart: seq<CartItem>
    /** `self.total` of the source, which holds the subtotal before tax. */
    var subtotal: nat
    var selectedSize: Option<Size>
    var selectedToppings: seq<ToppingCount>

    /**
     * The session invariant, in three parts by the fields each reads. The
     * subtotal is only promised while the cart is non-empty: logout empties
     * the cart without recomputing it.
     */
    ghost predicate Valid()
      reads this
    {
      StoreOk() && CartOk() && BuilderOk()
    }

    /** The tables keep their invariants, and the logged-in user's row exists. */
    ghost predicate StoreOk()
      reads this`users, this`nextUserId, this`orders, this`nextOrderId, this`currentUser
    {
      StoreInvariant(users, nextUserId, orders, nextOrderId, currentUser)
    }

    ghost predicate CartOk()
      reads this`cart, this`subtotal
    {
      cart != [] ==> subtotal == Subtotal(cart)
    }

    ghost predicate BuilderOk()
      reads this`selectedToppings
    {
      DistinctKeys(selectedToppings)
    }

    /** The state __init__ leaves before init_database: no user, an empty cart, a zero total. */
    constructor (storedUsers: seq<User>, userSeq: nat, storedOrders: seq<Order>, orderSeq: nat)
      requires TableOk(storedUsers, userSeq) && OrdersOk(storedOrders, orderSeq, userSeq)
      ensures Valid()
      ensures users == storedUsers && nextUserId == userSeq
      ensures orders == storedOrders && nextOrderId == orderSeq
      ensures currentUser == None && cart == [] && subtotal == 0
      ensures selectedSize == None && selectedToppings == []
    {
      users, nextUserId := storedUsers, userSeq;
      orders, nextOrderId := storedOrders, orderSeq;
      currentUser := None;
      cart := [];
      subtotal := 0;
      selectedSize := None;
      selectedToppings := [];
    }

    // ------------------------------------------------------------ database

    /** Seed the default accounts; on a UNIQUE violation nothing is committed. */
    method InitDatabase() returns (r: Result<(), DbError>)
      requires Valid()
      modifies this`users, this`nextUserId
      ensures Valid()
      ensures r.Failure? <==> SeedConflict(old(users))
      ensures r.Failure? ==> users == old(users) && nextUserId == old(nextUserId)
      ensures r.Success? ==> users == SeedDefaults(old(users), old(nextUserId)).value
      ensures r.Success? ==> nextUserId == old(nextUserId) + |users| - |old(users)|
    {
      var r0 := SeedDefaults(users, nextUserId);
      if r0.Failure? {
        return Failure(r0.error);
      }
      var next := nextUserId + |r0.value| - |users|;
      SeedKeepsStore(users, nextUserId, orders, nextOrderId, currentUser);
      users, nextUserId := r0.value, next;
      r := Success(());
    }

    /** On valid credentials the matching row becomes the current user. */
    method Login(rawName: string, rawPin: string) returns (r: Result<Session, LoginError>)
      requires Valid()
      modifies this`currentUser
      ensures Valid()
      ensures r == CheckLogin(users, rawName, rawPin)
      ensures currentUser == if r.Success? then Some(r.value) else old(currentUser)
    {
      r := CheckLogin(users, rawName, rawPin);
      if r.Success? {
        LoginKeepsStore(users, nextUserId, orders, nextOrderId, currentUser, rawName, rawPin);
        currentUser := Some(r.value);
      }
    }

    /** The Save button of the Add User dialog. */
    method SaveUser(rawName: string, rawPin: string, isAdmin: bool) returns (r: EditOutcome)
      requires Valid()
      modifies this`users, this`nextUserId
      ensures Valid()
      ensures var c := ReadCredentials(rawName, rawPin);
              && (c.Failure? ==> r == RejectedInput(c.error))
              && (c.Success? && NameTaken(old(users), c.value.username) ==> r == NameInUse)
              && (r == Saved <==> c.Success? && !NameTaken(old(users), c.value.username))
              && (r == Saved ==>
                    users == old(users) + [User(old(nextUserId), c.value.username, c.value.pin, isAdmin)]
                    && nextUserId == old(nextUserId) + 1)
      ensures r != Saved ==> users == old(users) && nextUserId == old(nextUserId)
    {
      var c := ReadCredentials(rawName, rawPin);
      if c.Failure? {
        return RejectedInput(c.error);
      }
      var row := User(nextUserId, c.value.username, c.value.pin, isAdmin);
      var ins := InsertUser(users, row);
      if ins.Failure? {
        return NameInUse;
      }
      InsertKeepsStore(users, nextUserId, orders, nextOrderId, currentUser, c.value.username, c.value.pin, isAdmin);
      users, nextUserId := ins.value, nextUserId + 1;
      r := Saved;
    }

    /**
     * The Edit User dialog for the row named target: looked up when the
     * dialog opens, rewritten by Save. The session is not refreshed.
     */
    method SaveChanges(target: string, rawName: string, rawPin: string, isAdmin: bool) returns (r: EditOutcome)
      requires Valid()
      modifies this`users
      ensures Valid()
      ensures r == NoSuchUser <==> !NameTaken(old(users), target)
      ensures var c := ReadCredentials(rawName, rawPin);
              && (NameTaken(old(users), target) && c.Failure? ==> r == RejectedInput(c.error))
              && (r == NameInUse <==> NameTaken(old(users), target) && c.Success?
                                       && UpdateByName(old(users), target, c.value.username, c.value.pin, isAdmin).Failure?)
              && (r == Saved <==> NameTaken(old(users), target) && c.Success?
                                    && UpdateByName(old(users), target, c.value.username, c.value.pin, isAdmin).Success?)
              && (r == Saved ==>
                    users == UpdateByName(old(users), target, c.value.username, c.value.pin, isAdmin).value)
      ensures r != Saved ==> users == old(users)
    {
      if !NameTaken(users, target) {
        return NoSuchUser;
      }
      var c := ReadCredentials(rawName, rawPin);
      if c.Failure? {
        return RejectedInput(c.error);
      }
      var upd := UpdateByName(users, target, c.value.username, c.value.pin, isAdmin);
      if upd.Failure? {
        return NameInUse;
      }
      UpdateKeepsStore(users, nextUserId, orders, nextOrderId, currentUser, target, c.value.username, c.value.pin, isAdmin);
      users := upd.value;
      r := Saved;
    }

    /**
     * Delete the row named target after confirmation. The refusal compares
     * row ids, not the username cached at login (see Accounts.RefusesDeletion).
     */
    method DeleteUser(target: string, confirmed: bool) returns (r: DeleteOutcome)
      requires Valid() && currentUser.Some?
      modifies this`users
      ensures Valid()
      ensures r == OwnAccount <==> RefusesDeletion(old(users), currentUser.value, target)
      ensures r == DeleteDeclined <==> !RefusesDeletion(old(users), currentUser.value, target) && !confirmed
      ensures r == Deleted ==> users == DeleteByName(old(users), target)
      ensures r != Deleted ==> users == old(users)
    {
      if RefusesDeletion(users, currentUser.value, target) {
        return OwnAccount;
      }
      if !confirmed {
        return DeleteDeclined;
      }
      DeleteKeepsStore(users, nextUserId, orders, nextOrderId, currentUser.value, target);
      users := DeleteByName(users, target);
      r := Deleted;
    }

    /** The PIN typed into the reset dialog is taken as is (not stripped); None is Cancel. */
    method ResetPassword(target: string, newPin: Option<string>) returns (r: ResetOutcome)
      requires Valid()
      modifies this`users
      ensures Valid()
      ensures r == ResetCancelled <==> newPin.None? || newPin.value == []
      ensures r == PinReset <==> newPin.Some? && PinIsValid(newPin.value)
      ensures r == PinReset ==> users == SetPin(old(users), target, newPin.value)
      ensures r != PinReset ==> users == old(users)
    {
      if newPin.Some? && PinIsValid(newPin.value) {
        SetPinKeepsStore(users, nextUserId, orders, nextOrderId, currentUser, target, newPin.value);
        users := SetPin(users, target, newPin.value);
        r := PinReset;
      } else if newPin.Some? && newPin.value != [] {
        r := ResetRejected;
      } else {
        r := ResetCancelled;
      }
    }

    /** Logout forgets the user and empties the cart; the subtotal is left as it was. */
    method Logout()
      requires Valid()
      modifies this`currentUser, this`cart
      ensures Valid()
      ensures currentUser == None && cart == []
    {
      currentUser := None;
      cart := [];
    }

    // ---------------------------------------------------------------- cart

    /** Recompute the subtotal by adding up the cart, and the tax and total shown beneath it. */
    method UpdateCartDisplay() returns (tax: nat, finalTotal: nat)
      modifies this`subtotal
      ensures subtotal == Subtotal(cart)
      ensures tax == Tax(subtotal) && finalTotal == Total(subtotal)
    {
      subtotal := 0;
      for i := 0 to |cart|
        invariant subtotal == Subtotal(cart[..i])
      {
        assert cart[..i + 1][..i] == cart[..i];
        subtotal := subtotal + cart[i].price;
      }
      assert cart[..|cart|] == cart;
      tax := Tax(subtotal);
      finalTotal := subtotal + tax;
    }

    /** The step every "add" shares: append the line, then refresh the cart display. */
    method AppendToCart(item: CartItem)
      requires Valid()
      modifies this`cart, this`subtotal
      ensures Valid()
      ensures cart == old(cart) + [item]
      ensures subtotal == Subtotal(cart) == Subtotal(old(cart)) + item.price
    {
      SubtotalConcat(cart, [item]);
      assert [item][..0] == [];
      cart := cart + [item];
      var tax, finalTotal := UpdateCartDisplay();
    }

    /** A standard pizza: size is the dialog's answer, None when it was cancelled. */
    method AddStandardPizza(pizzaName: string, size: Option<string>) returns (r: StandardOutcome)
      requires Valid()
      modifies this`cart, this`subtotal
      ensures Valid()
      ensures r == NoSize <==> size.None? || size.value == []
      ensures r == UnknownSize <==> size.Some? && size.value != [] && ParseSize(ToLower(size.value)).None?
      ensures r == StandardAdded ==>
                && ParseSize(ToLower(size.value)).Some?
                && cart == old(cart) + [StandardPizzaItem(pizzaName, ParseSize(ToLower(size.value)).value)]
                && subtotal == Subtotal(old(cart)) + PizzaPrice(ParseSize(ToLower(size.value)).value)
      ensures r != StandardAdded ==> cart == old(cart) && subtotal == old(subtotal)
    {
      if size.None? || size.value == [] {
        return NoSize;
      }
      var z := ParseSize(ToLower(size.value));
      if z.None? {
        return UnknownSize;
      }
      AppendToCart(StandardPizzaItem(pizzaName, z.value));
      r := StandardAdded;
    }

    /** Opening the custom-pizza dialog: medium, and no toppings chosen. */
    method StartCustomPizza()
      requires Valid()
      modifies this`selectedSize, this`selectedToppings
      ensures Valid()
      ensures selectedSize == Some(Medium) && selectedToppings == []
    {
      selectedSize := Some(Medium);
      selectedToppings := [];
    }

    method SelectSize(z: Size)
      requires Valid()
      modifies this`selectedSize
      ensures Valid()
      ensures selectedSize == Some(z)
    {
      selectedSize := Some(z);
    }

    /** "+" on a topping: a new topping is entered at 0 after the others, then counted up. */
    method IncreaseTopping(t: Topping)
      requires Valid()
      modifies this`selectedToppings
      ensures Valid()
      ensures Count(selectedToppings, t) == Count(old(selectedToppings), t) + 1
      ensures forall u :: u != t ==> Count(selectedToppings, u) == Count(old(selectedToppings), u)
      ensures Keys(selectedToppings) == if Find(old(selectedToppings), t).Some? then Keys(old(selectedToppings))
                                        else Keys(old(selectedToppings)) + [t]
    {
      var i := Find(selectedToppings, t);
      if i.None? {
        CountAfterAppend(selectedToppings, t, 0);
        selectedToppings := selectedToppings + [ToppingCount(t, 0)];
        i := Some(|selectedToppings| - 1);
      }
      ghost var s1 := selectedToppings;
      var k := i.value;
      CountAt(s1, k);
      CountAfterSet(s1, k, s1[k].count + 1);
      selectedToppings := selectedToppings[k := ToppingCount(t, selectedToppings[k].count + 1)];
    }

    /** "−" on a topping: entered at 0 if new, and counted down only while above zero. */
    method DecreaseTopping(t: Topping)
      requires Valid()
      modifies this`selectedToppings
      ensures Valid()
      ensures Count(selectedToppings, t) == if Count(old(selectedToppings), t) > 0 then Count(old(selectedToppings), t) - 1 else 0
      ensures forall u :: u != t ==> Count(selectedToppings, u) == Count(old(selectedToppings), u)
      ensures Keys(selectedToppings) == if Find(old(selectedToppings), t).Some? then Keys(old(selectedToppings))
                                        else Keys(old(selectedToppings)) + [t]
    {
      var i := Find(selectedToppings, t);
      if i.None? {
        CountAfterAppend(selectedToppings, t, 0);
        selectedToppings := selectedToppings + [ToppingCount(t, 0)];
        i := Some(|selectedToppings| - 1);
      }
      ghost var s1 := selectedToppings;
      var k := i.value;
      CountAt(s1, k);
      if selectedToppings[k].count > 0 {
        CountAfterSet(s1, k, s1[k].count - 1);
        selectedToppings := selectedToppings[k := ToppingCount(t, selectedToppings[k].count - 1)];
      }
    }

    /** "Add to Order": a size and at least one topping are required. */
    method AddPizzaToOrder() returns (r: CustomOutcome)
      requires Valid()
      modifies this`cart, this`subtotal
      ensures Valid()
      ensures r == SizeRequired <==> selectedSize.None?
      ensures r == ToppingsRequired <==> selectedSize.Some? && !AnyTopping(selectedToppings)
      ensures r == CustomAdded ==>
                cart == old(cart) + [CustomPizzaItem(selectedSize.value, selectedToppings)] && subtotal == Subtotal(cart)
      ensures r != CustomAdded ==> cart == old(cart) && subtotal == old(subtotal)
    {
      if selectedSize.None? {
        return SizeRequired;
      }
      var has := HasToppings(selectedToppings);
      if !has {
        return ToppingsRequired;
      }
      AddCustomPizza();
      r := CustomAdded;
    }

    /** Append the custom pizza built from the dialog's size and selection. */
    method AddCustomPizza()
      requires Valid() && selectedSize.Some?
      modifies this`cart, this`subtotal
      ensures Valid()
      ensures cart == old(cart) + [CustomPizzaItem(selectedSize.value, selectedToppings)]
      ensures subtotal == Subtotal(cart) == Subtotal(old(cart)) + CustomPizzaItem(selectedSize.value, selectedToppings).price
    {
      var z := selectedSize.value;
      var groups, toppingPrice := GroupAndPrice(selectedToppings);
      var item := CustomPizza(CustomDescription(z, groups), PizzaPrice(z) + toppingPrice, z, Keys(groups));
      assert item == CustomPizzaItem(z, selectedToppings);
      AppendToCart(item);
    }

    method AddDrink(name: string, price: nat)
      requires Valid()
      requires (name, price) in DrinkMenu
      modifies this`cart, this`subtotal
      ensures Valid()
      ensures cart == old(cart) + [Drink(name, price)]
      ensures subtotal == Subtotal(cart) == Subtotal(old(cart)) + price
    {
      AppendToCart(Drink(name, price));
    }

    /** "Remove Selected": selection is the highlighted line of the cart list, if any. */
    method RemoveCartItem(selection: Option<nat>)
      requires Valid()
      requires selection.Some? ==> selection.value < |cart|
      modifies this`cart, this`subtotal
      ensures Valid()
      ensures selection.None? ==> cart == old(cart) && subtotal == old(subtotal)
      ensures selection.Some? ==>
                && cart == old(cart)[..selection.value] + old(cart)[selection.value + 1..]
                && subtotal == Subtotal(cart)
                && subtotal + old(cart)[selection.value].price == Subtotal(old(cart))
    {
      if selection.Some? {
        var i := selection.value;
        SubtotalRemove(cart, i);
        cart := cart[..i] + cart[i + 1..];
        var tax, finalTotal := UpdateCartDisplay();
      }
    }

    method ClearCart(confirmed: bool)
      requires Valid()
      modifies this`cart, this`subtotal
      ensures Valid()
      ensures confirmed ==> cart == [] && subtotal == 0
      ensures !confirmed ==> cart == old(cart) && subtotal == old(subtotal)
    {
      if confirmed {
        cart := [];
        var tax, finalTotal := UpdateCartDisplay();
      }
    }

    /**
     * Record the cart as an order of the current user after confirmation,
     * priced from the running subtotal, and start a new cart.
     */
    method ProcessOrder(confirmed: bool) returns (r: OrderOutcome)
      requires Valid() && currentUser.Some?
      modifies this`orders, this`nextOrderId, this`cart, this`subtotal
      ensures Valid()
      ensures r == EmptyCart <==> old(cart) == []
      ensures r == OrderDeclined <==> old(cart) != [] && !confirmed
      ensures r.OrderProcessed? ==>
                var s := Subtotal(old(cart));
                && r.order == Order(old(nextOrderId), currentUser.value.id, old(cart), s, Tax(s), Total(s))
                && orders == old(orders) + [r.order] && nextOrderId == old(nextOrderId) + 1
                && cart == [] && subtotal == 0
      ensures !r.OrderProcessed? ==>
                orders == old(orders) && nextOrderId == old(nextOrderId) && cart == old(cart) && subtotal == old(subtotal)
    {
      if cart == [] {
        return EmptyCart;
      }
      var tax := Tax(subtotal);
      var finalTotal := subtotal + tax;
      if !confirmed {
        return OrderDeclined;
      }
      var id := currentUser.value.id;
      OrderKeepsStore(users, nextUserId, orders, nextOrderId, currentUser.value, cart);
      var order := Order(nextOrderId, id, cart, subtotal, tax, finalTotal);
      orders, nextOrderId := orders + [order], nextOrderId + 1;
      cart := [];
      var t, f := UpdateCartDisplay();
      r := OrderProcessed(order);
    }
  }
}
