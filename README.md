# Bob's Pizza Emporium point of sale — a Dafny model of the order and account logic

Bob's Pizza Emporium is a single-terminal point-of-sale application. A user logs in with a username and 4-digit PIN, then fills a cart with standard pizzas, custom pizzas and drinks. The app shows subtotal, 8 % tax and total, and records completed orders. Administrators also manage the user directory.

This project models the `PizzaPOSApp` class in `bobs_pizza_emporium/pizza_pos_app.py` without its tkinter and sqlite plumbing, and proves properties of that model.

The modules follow the structure of the program:

- `Wrappers`: `Option` and `Result`.
- `Text`: the parts of Python string handling the app relies on.
  - `str.strip()`, over Python's whitespace set.
  - `lower()`.
  - Decimal rendering of a count.
  - `', '.join`.
- `Catalog`: the fixed price tables and the 8 % tax rate.
  - Money is a whole number of cents: every literal in the source has exactly two decimal places.
- `Cart`: the pure specification of the cart.
  - Cart items and the subtotal, which sums item prices in cart order.
  - Tax, rounded half up to the cent, which is `(8·s + 50) div 100`, and the total.
  - The custom-pizza selection. It is a Python dictionary and keeps insertion order, so it is modelled as a sequence of (topping, count) entries with distinct keys.
  - The item records that `add_standard_pizza` and `add_custom_pizza` build.
  - The scanning loops of `add_pizza_to_order` and `add_custom_pizza`, as methods.
- `Accounts`: the users table.
  - PIN validation, the login decision, and the `INSERT`, `UPDATE` and `DELETE` statements as functions from the old table to the new one. A `UNIQUE` violation gives `DbError` and leaves the table unchanged.
  - The seeding done by `init_database`.
  - The self-deletion guard.
- `Pos`: class `PizzaPos` holds the session.
  - The users and orders tables, with their AUTOINCREMENT counters.
  - The current user, the cart and the running subtotal.
  - The size and toppings of the custom-pizza dialog.
  - Each button handler is a method with a `modifies` clause. Its answers from `askyesno` and `askstring` dialogs are parameters.
  - `Valid()` is the invariant every method keeps:
    - usernames are unique;
    - ids are increasing and below their counters;
    - stored PINs are four digits;
    - every stored order's amounts are the ones its items add up to;
    - the logged-in user's row still exists;
    - while the cart is non-empty, the subtotal field equals the fresh sum of the cart.

The source's `self.total` holds the subtotal, so the field is called `subtotal`.

`logout` empties the cart without calling `update_cart_display`, so after a logout the field still holds the old amount. For that reason the invariant promises the fresh sum only while the cart is non-empty. That is enough for `process_order`, which reads the field only for a non-empty cart.

`init_database` does not catch a `UNIQUE` violation while seeding. The violation happens when an account of the wrong kind already holds the name `admin` or `employee`, and the program then stops with nothing committed. The model represents that crash as a `Failure` result of `InitDatabase` with the table unchanged; what a caller does after it is not modelled.

On these points the model follows the code:

- `add_drink` takes the name and price from its button, and the buttons are made from the drink price table (:320-326). It looks nothing up, so there is no unknown-drink error.
- `delete_user` and `reset_password` do not check that the user exists. The `DELETE` or `UPDATE` then affects zero rows.
- `remove_cart_item` only removes a line the cart list shows. The model requires the index to be in range instead of returning an out-of-range error.
- Nothing stops the last administrator from being deleted.

## Model

| member | source | states |
|---|---|---|
| Text.TrimStart | bobs_pizza_emporium/pizza_pos_app.py:199 | the result is a suffix of the input |
| Text.TrimStartMeaning | bobs_pizza_emporium/pizza_pos_app.py:199 | everything the leading trim drops is whitespace, and a non-empty result starts with a non-space |
| Text.TrimEnd | bobs_pizza_emporium/pizza_pos_app.py:199 | the result is a prefix of the input |
| Text.TrimEndMeaning | bobs_pizza_emporium/pizza_pos_app.py:199 | everything the trailing trim drops is whitespace, and a non-empty result ends with a non-space |
| Text.StripMeaning | bobs_pizza_emporium/pizza_pos_app.py:199-200 | `strip()`: the result neither starts nor ends with whitespace; it is empty exactly when the input is all whitespace; an input without edge whitespace is returned unchanged |
| Text.StripUnchanged | bobs_pizza_emporium/pizza_pos_app.py:199-200 | a field that neither starts nor ends with whitespace is returned as it is |
| Text.ToLowerOfLower | bobs_pizza_emporium/pizza_pos_app.py:460 | a string without capital letters is its own lower-case form |
| Text.DigitChar | bobs_pizza_emporium/pizza_pos_app.py:770 | each decimal digit d is rendered as the character d places after '0' |
| Text.NatToString | bobs_pizza_emporium/pizza_pos_app.py:770 | `f"{count}"` is a non-empty string of decimal digits, with no leading zero unless the count is zero |
| Text.NatToStringValue | bobs_pizza_emporium/pizza_pos_app.py:770 | reading the rendered count back as a decimal number gives the count |
| Cart.SizeAnswerAccepted | bobs_pizza_emporium/pizza_pos_app.py:456-461 | the size dialog accepts each size typed as its key ("medium") or as its title ("Medium") |
| Catalog.ParseSize | bobs_pizza_emporium/pizza_pos_app.py:54-58 | a string names a size exactly when it is one of the keys "small", "medium", "large" of the pizza price table |
| Catalog.EveryToppingOnMenu | bobs_pizza_emporium/pizza_pos_app.py:61-68 | the topping menu lists every topping, each once |
| Cart.SubtotalConcat | bobs_pizza_emporium/pizza_pos_app.py:800-805 | the subtotal of two carts joined is the sum of their subtotals |
| Cart.SubtotalRemove | bobs_pizza_emporium/pizza_pos_app.py:822 | removing the item at an index lowers the subtotal by exactly that item's price |
| Cart.Tax | bobs_pizza_emporium/pizza_pos_app.py:808-809 | the tax is the number of cents nearest to 8 % of the subtotal, a half cent rounding up |
| Cart.TaxIsNearestCent | bobs_pizza_emporium/pizza_pos_app.py:808-809 | no other whole number of cents lies within half a cent of 8 % of the subtotal |
| Cart.TwentyDollarExample | bobs_pizza_emporium/test_pizza_pos.py:132-134 | a 20.00 subtotal carries 1.60 tax and a 21.60 total |
| Cart.Find | bobs_pizza_emporium/pizza_pos_app.py:685 | `topping in selected_toppings`: a found index holds that topping; nothing is found exactly when no entry holds it |
| Cart.CountAt | bobs_pizza_emporium/pizza_pos_app.py:687 | in a dictionary with distinct keys, an entry's count is the count looked up for its topping |
| Cart.CountAfterSet | bobs_pizza_emporium/pizza_pos_app.py:687 | assigning one entry's count changes only that topping's count and keeps the keys and their order |
| Cart.CountAfterAppend | bobs_pizza_emporium/pizza_pos_app.py:685-686 | adding a new key keeps the keys distinct and changes only the new topping's count |
| Cart.MenuCostAfterAppend | bobs_pizza_emporium/pizza_pos_app.py:759-764 | adding a new entry adds its count times its unit price to the per-topping charge |
| Cart.MenuCostOfNothing | bobs_pizza_emporium/pizza_pos_app.py:755 | an empty selection costs nothing |
| Cart.ToppingCostByTopping | bobs_pizza_emporium/pizza_pos_app.py:759-764 | the portion-by-portion price of a selection equals Σ over the menu of count × unit price |
| Cart.GroupsMembers | bobs_pizza_emporium/pizza_pos_app.py:759-761 | `topping_groups` holds exactly the entries whose count is positive |
| Cart.GroupsDistinct | bobs_pizza_emporium/pizza_pos_app.py:759-761 | `topping_groups` holds each topping at most once, as dictionary keys do |
| Cart.GroupKeysMembers | bobs_pizza_emporium/pizza_pos_app.py:780 | the stored toppings are exactly those with a positive count |
| Cart.GroupKeysInOrder | bobs_pizza_emporium/pizza_pos_app.py:780 | the stored toppings have no repeats, and two chosen toppings appear in their insertion order |
| Cart.GroupsOrder | bobs_pizza_emporium/pizza_pos_app.py:759-761 | two chosen toppings appear in `topping_groups` in their insertion order |
| Cart.ToppingCostGroups | bobs_pizza_emporium/pizza_pos_app.py:759-764 | dropping the zero-count entries does not change the topping charge |
| Cart.HasToppings | bobs_pizza_emporium/pizza_pos_app.py:734-739 | the scan answers yes exactly when some topping count is positive |
| Cart.GroupAndPrice | bobs_pizza_emporium/pizza_pos_app.py:755-764 | the nested loops give exactly the positive-count entries, in order, and the charge of the whole selection |
| Cart.AnyToppingListed | bobs_pizza_emporium/pizza_pos_app.py:769-773 | the description lists toppings, instead of saying "Plain", exactly when some count is positive |
| Cart.CustomPizzaItemMeaning | bobs_pizza_emporium/pizza_pos_app.py:752-781 | a validated custom pizza costs the size's base price plus Σ count × unit price; its name is "Custom Pizza (Size) - " followed by the labels joined with ", "; its grouped entries have distinct toppings; its toppings are exactly those with a positive count, each once, in insertion order |
| Cart.MediumPepperoniBaconPrice | bobs_pizza_emporium/pizza_pos_app.py:752-766 | medium with Pepperoni ×2 and Bacon ×1 costs 20.99 |
| Cart.MediumPepperoniBaconName | bobs_pizza_emporium/pizza_pos_app.py:769-771 | ... and is described as "Custom Pizza (Medium) - Pepperoni x2, Bacon x1" |
| Cart.PepperoniBaconGroups | bobs_pizza_emporium/pizza_pos_app.py:759-761 | both entries of that selection have positive counts, so both are grouped, in order |
| Cart.PepperoniBaconJoin | bobs_pizza_emporium/pizza_pos_app.py:771 | the two labels are joined as "Pepperoni x2, Bacon x1" |
| Cart.PepperoniBaconLabels | bobs_pizza_emporium/pizza_pos_app.py:770 | the labels of that selection are "Pepperoni x2" and "Bacon x1" |
| Accounts.ReadCredentials | bobs_pizza_emporium/pizza_pos_app.py:199-208 | the form is accepted exactly when the stripped name is non-empty and the stripped PIN is four digits; an empty field is reported as missing, whatever the other field holds |
| Accounts.FindUser | bobs_pizza_emporium/pizza_pos_app.py:211-216 | a row is found only if it has that exact username and PIN, and none is found only if no row has both |
| Accounts.CheckLogin | bobs_pizza_emporium/pizza_pos_app.py:197-227 | login succeeds exactly when the form is valid and some row matches the stripped name and PIN; the session then copies that row's id, name and admin flag; a form error is reported as that form error, and only a well-formed form can be refused as invalid credentials |
| Accounts.InsertUser | bobs_pizza_emporium/pizza_pos_app.py:917-927 | the insert fails exactly when the name is taken, and otherwise appends the row |
| Accounts.CleanCredentials | bobs_pizza_emporium/pizza_pos_app.py:199-208 | a name without edge whitespace and a four-digit PIN are accepted unchanged |
| Accounts.InsertKeepsTable | bobs_pizza_emporium/pizza_pos_app.py:91 | inserting keeps usernames unique, with the counter moved on |
| Accounts.UpdateByName | bobs_pizza_emporium/pizza_pos_app.py:996-1006 | the update fails exactly when it would rename onto another existing name; otherwise the rows with the old name are rewritten and all others are kept |
| Accounts.UpdateKeepsTable | bobs_pizza_emporium/pizza_pos_app.py:91 | an accepted update keeps usernames unique and ids ordered |
| Accounts.DeleteByName | bobs_pizza_emporium/pizza_pos_app.py:1034 | the rows left are exactly those with another name |
| Accounts.DeleteKeepsTable | bobs_pizza_emporium/pizza_pos_app.py:1034 | deleting keeps the table invariant |
| Accounts.AppendKeepsTable | bobs_pizza_emporium/pizza_pos_app.py:91 | a row with a new name and a larger id may be added last |
| Accounts.SetPin | bobs_pizza_emporium/pizza_pos_app.py:1050 | the rows with that name get the new PIN, and all other rows are kept |
| Accounts.SetPinKeepsTable | bobs_pizza_emporium/pizza_pos_app.py:1049-1050 | a reset to a valid PIN keeps the table invariant |
| Accounts.UpdateKeepsIds | bobs_pizza_emporium/pizza_pos_app.py:996-1000 | an update removes no id from the table |
| Accounts.PrefixKeepsIds | bobs_pizza_emporium/pizza_pos_app.py:917-927 | appending rows removes no id from the table |
| Accounts.SetPinKeepsIds | bobs_pizza_emporium/pizza_pos_app.py:1050 | a PIN reset removes no id from the table |
| Accounts.SeedDefaults | bobs_pizza_emporium/pizza_pos_app.py:112-126 | seeding fails exactly when a default name is held by a user of the other kind; otherwise it only adds rows, leaves at least one administrator and one other user, and adds nothing when both kinds already exist |
| Accounts.SeedAddsMissingDefaults | bobs_pizza_emporium/pizza_pos_app.py:112-126 | seeding appends exactly the missing defaults: admin/1234 if no administrator exists, then employee/5678 if no other user exists, each with the next id |
| Accounts.SeedRowKeepsTable | bobs_pizza_emporium/pizza_pos_app.py:112-126 | one default row with a free name and the next id keeps the table invariant |
| Accounts.SeedKeepsTable | bobs_pizza_emporium/pizza_pos_app.py:112-126 | the seeded table keeps the table invariant |
| Accounts.DeletionKeepsOwnAccount | bobs_pizza_emporium/pizza_pos_app.py:1029-1034 | with the guard on row ids, a deletion goes ahead exactly when the logged-in user's row survives it |
| Accounts.SeedEmptyTable | bobs_pizza_emporium/pizza_pos_app.py:112-126 | seeding an empty table gives admin/1234 the id 1 and employee/5678 the id 2 |
| Accounts.SeededAdminLogin | bobs_pizza_emporium/pizza_pos_app.py:113-126 | on the table that seeding an empty table produces, admin/1234 logs in as an administrator |
| Accounts.SeededWrongPinLogin | bobs_pizza_emporium/pizza_pos_app.py:224-227 | on that table admin/0000 is refused as invalid credentials, not as a malformed PIN |
| Accounts.WrongPinRefused | bobs_pizza_emporium/pizza_pos_app.py:197-227 | on the two default rows admin/0000 is refused as invalid credentials |
| Accounts.WrongPinCredentials | bobs_pizza_emporium/pizza_pos_app.py:199-208 | admin/0000 passes the form check |
| Accounts.WrongPinNotFound | bobs_pizza_emporium/pizza_pos_app.py:211-216 | no seeded row has that name and PIN |
| Accounts.StaleSessionAllowsSelfDeletion | bobs_pizza_emporium/pizza_pos_app.py:1029-1031 | after an administrator renames their own row, the written guard lets them delete it, while the guard on ids refuses |
| Accounts.SeededAdminRename | bobs_pizza_emporium/pizza_pos_app.py:996-1000 | on the seeded table, renaming admin to "boss" rewrites only that row |
| Accounts.RenamedAdminDeletion | bobs_pizza_emporium/pizza_pos_app.py:1029-1034 | after that rename, deleting "boss" leaves only the employee, and the guard on ids refuses it |
| Pos.OrdersOkForMoreUsers | bobs_pizza_emporium/pizza_pos_app.py:99-110 | handing out more user ids keeps every stored order's user id below the counter |
| Pos.SeedKeepsStore | bobs_pizza_emporium/pizza_pos_app.py:112-126 | seeding keeps the store invariant, with the user counter moved past the new rows |
| Pos.InsertKeepsStore | bobs_pizza_emporium/pizza_pos_app.py:917-927 | an accepted `INSERT` with the next id keeps the store invariant |
| Pos.UpdateKeepsStore | bobs_pizza_emporium/pizza_pos_app.py:996-1006 | an accepted `UPDATE` keeps the store invariant, including the logged-in user's row |
| Pos.SetPinKeepsStore | bobs_pizza_emporium/pizza_pos_app.py:1049-1050 | a reset to a four-digit PIN keeps the store invariant |
| Pos.DeleteKeepsStore | bobs_pizza_emporium/pizza_pos_app.py:1029-1034 | a `DELETE` that the guard on ids lets through keeps the store invariant, including the logged-in user's row |
| Pos.LoginKeepsStore | bobs_pizza_emporium/pizza_pos_app.py:211-222 | a session taken from a matching row points at a row of the table |
| Pos.OrderKeepsStore | bobs_pizza_emporium/pizza_pos_app.py:846-856 | recording a non-empty cart of a logged-in user at its fresh subtotal, tax and total keeps the orders table consistent |
| Pos.PizzaPos.constructor | bobs_pizza_emporium/pizza_pos_app.py:47-50 | the session starts with no user, an empty cart and a zero total over the stored tables |
| Pos.PizzaPos.InitDatabase | bobs_pizza_emporium/pizza_pos_app.py:112-126 | the table becomes the seeded table, or stays as it was exactly when seeding conflicts |
| Pos.PizzaPos.Login | bobs_pizza_emporium/pizza_pos_app.py:197-227 | the answer is the login decision on the current table; the current user changes only on success |
| Pos.PizzaPos.SaveUser | bobs_pizza_emporium/pizza_pos_app.py:905-927 | a form error or a taken name is reported and changes nothing; otherwise exactly one row with the stripped fields and the next id is appended |
| Pos.PizzaPos.SaveChanges | bobs_pizza_emporium/pizza_pos_app.py:948-1006 | an unknown user, a form error or a name collision changes nothing and is reported as such; an existing user with a valid form and no collision is saved, and the table becomes the one the update produces |
| Pos.PizzaPos.DeleteUser | bobs_pizza_emporium/pizza_pos_app.py:1020-1037 | the deletion of one's own row is refused; an unconfirmed deletion changes nothing; otherwise exactly the rows with that name go |
| Pos.PizzaPos.ResetPassword | bobs_pizza_emporium/pizza_pos_app.py:1048-1054 | a cancelled or empty answer does nothing; the PIN is changed exactly when the unstripped answer is four digits |
| Pos.PizzaPos.Logout | bobs_pizza_emporium/pizza_pos_app.py:1098-1101 | no user is logged in and the cart is empty |
| Pos.PizzaPos.UpdateCartDisplay | bobs_pizza_emporium/pizza_pos_app.py:797-810 | the subtotal is the fresh sum of the cart, with tax and total computed from it |
| Pos.PizzaPos.AppendToCart | bobs_pizza_emporium/pizza_pos_app.py:469-470 | the item is appended after the others and the subtotal becomes the fresh sum, larger by the item's price |
| Pos.PizzaPos.AddStandardPizza | bobs_pizza_emporium/pizza_pos_app.py:456-472 | a cancelled or empty answer does nothing; an answer that is not a size once lowered is refused and changes nothing; otherwise exactly one pizza at that size's base price is appended and the subtotal grows by that price |
| Pos.PizzaPos.StartCustomPizza | bobs_pizza_emporium/pizza_pos_app.py:536-580 | the dialog opens on medium with no toppings chosen |
| Pos.PizzaPos.SelectSize | bobs_pizza_emporium/pizza_pos_app.py:671-673 | the chosen size becomes the selected size |
| Pos.PizzaPos.IncreaseTopping | bobs_pizza_emporium/pizza_pos_app.py:681-693 | the topping's count goes up by one and no other count changes; a new topping is entered after the others |
| Pos.PizzaPos.DecreaseTopping | bobs_pizza_emporium/pizza_pos_app.py:695-702 | the count goes down by one only when above zero, and no other count changes; a new topping is entered at zero |
| Pos.PizzaPos.AddPizzaToOrder | bobs_pizza_emporium/pizza_pos_app.py:727-747 | with no size, or with every count zero, nothing changes; otherwise the custom pizza is appended |
| Pos.PizzaPos.AddCustomPizza | bobs_pizza_emporium/pizza_pos_app.py:749-785 | exactly one custom pizza for the selection is appended, and the subtotal grows by its price |
| Pos.PizzaPos.AddDrink | bobs_pizza_emporium/pizza_pos_app.py:787-795 | a drink from the price table is appended as exactly one line, and the subtotal grows by its price |
| Pos.PizzaPos.RemoveCartItem | bobs_pizza_emporium/pizza_pos_app.py:817-823 | with nothing selected nothing changes; otherwise exactly the selected item goes, the others keep their order, and the subtotal drops by its price |
| Pos.PizzaPos.ClearCart | bobs_pizza_emporium/pizza_pos_app.py:825-829 | after confirmation the cart is empty and the subtotal zero; otherwise nothing changes |
| Pos.PizzaPos.ProcessOrder | bobs_pizza_emporium/pizza_pos_app.py:831-860 | an empty cart or an unconfirmed order changes nothing; otherwise exactly one order is recorded with the next id, the current user's id, the cart, and its fresh subtotal, tax and total, and the cart is emptied |

## Left out

- Pos.PizzaPos.SaveChanges: the lookup of the selected user in `edit_user` (:951-956) and the `UPDATE` in `save_changes` (:996-1003) are modelled as one step. The edit dialog does not block the main window, so the row can be deleted or renamed in between; the source then updates zero rows and still reports success, where the model answers `NoSuchUser`. The table ends the same either way.
- The tkinter user interface is not modelled: windows, widgets, colours and the debug output. The cart, topping-count and current-pizza displays are left out too. The confirmation and text-entry dialogs are parameters of the methods.
- The wording of messages is not modelled. An error message is the outcome value a method returns.
- The sqlite connection, cursor and commits are left out. The tables are sequences, and the AUTOINCREMENT sequences are the counters `nextUserId` and `nextOrderId`.
- `created_at` columns and `view_orders` are left out. Neither affects the behaviour modelled here.
- `load_users` is left out, along with how a listbox line is parsed back into a username (`split(' (Admin)')`). The administration methods take the selected row's username directly. A username that itself contains " (Admin)" is therefore not modelled.
- The "no selection" warnings of `edit_user`, `delete_user` and `reset_password` are left out. They only fire when no listbox line is selected, and they change nothing.
- The `float()` conversion when an order is stored is left out, because it is floating point. The model stores exact cents.
- The `str(self.cart)` text stored as the order's items is left out. The model stores the item sequence itself.
- `configure_prices` and `forgot_password` are left out. They only show a message.
- `install.py` and `launch.py` are left out. They are environment checks and platform glue.
- Accounts.PinIsValid: digits are ASCII 0–9. Python's `isdigit` also accepts other Unicode digits, such as "١٢٣٤", which the model refuses.
- Text.ToLower: lowers ASCII letters only. For deciding whether an answer names a size this makes no difference: no other character lowers to a letter of "small", "medium" or "large" alone.
- Decimal arithmetic is exact in cents here. The source's 28-digit Decimal context never rounds amounts of this size.
- Pos.PizzaPos.DeleteUser: uses the corrected guard on row ids (see Findings), not the comparison with the cached username. The written comparison is Accounts.RefusesDeletionAsWritten.
- The custom-pizza dialog's `selected_size` starts as "medium" and only takes the button values. The empty size that `add_pizza_to_order` checks for is therefore `None`, which the model has before any dialog is opened.

## Findings

| source | as written | input that shows it | evidently intended | confidence | as-written member | corrected member |
|---|---|---|---|---|---|---|
| bobs_pizza_emporium/pizza_pos_app.py:1029-1031 | `delete_user` compares the target with `current_user['username']`, which was copied at login and is not refreshed when `save_changes` (:996-1000) renames that user | log in as admin/1234 on the seeded table, rename the own row to "boss", then delete "boss": the guard passes and the logged-in administrator's own row is deleted | the logged-in user's own row can never be deleted | not executed | Accounts.StaleSessionAllowsSelfDeletion | Accounts.DeletionKeepsOwnAccount |

After such a rename the converse also goes wrong. A different user who is later given the old name cannot be deleted by the renamed administrator. The corrected guard compares the row's id with the session's id. `Pos.PizzaPos.DeleteUser` uses it, and the class invariant that the logged-in user's row exists depends on it.
