# DaViLib menu layer, in Dafny

A model of the menu layer of DaViLib, a library for Bukkit (Minecraft server)
plugins, with proofs about it. It has four parts:

- `menu_handler.dfy` (module `MenuHandling`): the `MenuHandler` registry.
  - It maps each player to the one menu that player has open.
  - It opens and closes menus, and `closeAll` drains the registry.
  - Its listener turns inventory-click, inventory-close, player-quit and
    player-death events into a forwarded button click or a close.
- `menu.dfy` (module `Menus`): a `Menu`, which is a table from slot to button
  plus the inventory the buttons are shown in.
  - `setButton` and `removeButton` update the table in place.
  - `performClick` calls the button at the clicked slot.
  - `open` writes every button into the inventory and shows it to the player.
- `chest_menu.dfy` (module `ChestMenus`): chest menus of 1 to 6 rows of 9 slots.
  - It checks the row count and computes the slot count.
  - It addresses slots by grid coordinates (x, y) with a bounds check.
  - The single and double chest menus are chest menus of 3 and 6 rows.
- `string_util.dfy` (module `StringUtil`): `copyPartialInnerMatches`, the
  order-preserving filter of a list of strings by substring containment.

`bukkit.dfy` (module `Bukkit`) is the boundary to the server:
- A player is an id, a button is an opaque id, and an inventory is an array of
  cells that each hold a button or nothing.
- A `Server` knows which players are online, which is what `Bukkit.getPlayer`
  finding a player stands for.
- `Server` records the `openInventory` and `closeInventory` calls made on players
  as a log of effects.
- Each menu records the `onClick` calls made on its buttons in a ghost log.

`wrappers.dfy` holds `Option` and `Result`. Java's `null` becomes `None`, and an
`IllegalArgumentException` becomes a `Failure`.

The state-changing operations are methods of classes whose fields they update
in place. Each method is proved against a pure function over a snapshot of the
state:
- `Menu.View()` is checked against `Removed`, `WithButton` and `Loaded`.
- The registry's effects are checked against `CloseEffects` and `ClosesInOrder`.

The lemmas then state what the source promises about those functions.

## Model

| member | source | states |
|---|---|---|
| `MenuHandling.MenuHandler.constructor` | src/main/java/com/danikvitek/davilib/menu/MenuHandler.java:25 | a new registry has no open menus |
| `MenuHandling.MenuHandler.OpenMenu` | src/main/java/com/danikvitek/davilib/menu/MenuHandler.java:33-37 | the player's entry becomes the menu, overwriting any previous one; every other player's entry is unchanged; afterwards the player has that menu open; the menu's buttons are written into its inventory and the server is asked to show that inventory to the player |
| `MenuHandling.CloseEffects` | src/main/java/com/danikvitek/davilib/menu/MenuHandler.java:53-60 | a close asks the server for at most one thing, `closeInventory` of that player; it asks exactly when the player had a menu open and is online |
| `MenuHandling.MenuHandler.CloseMenu` | src/main/java/com/danikvitek/davilib/menu/MenuHandler.java:53-60 | removes exactly the player's entry, so afterwards the player has no menu and `getMenu` gives none, and other players are untouched; closes the player's view only when the player had a menu and is online; for a player with no menu it changes nothing and asks nothing |
| `MenuHandling.CloseMenuTwice` | src/main/java/com/danikvitek/davilib/menu/MenuHandler.java:54-59 | on the values `closeMenu` works on: removing the key again leaves the registry as the first removal left it, and the close effects computed over the registry without the key are empty. The method-level idempotence comes from `CloseMenu`'s own contract: after one call the player has no menu, and for such a player a call changes neither the registry nor the effects |
| `MenuHandling.MenuHandler.HasMenuClosed` | src/main/java/com/danikvitek/davilib/menu/MenuHandler.java:68-70 | true exactly when the player has no entry; the empty-map short-circuit never changes the answer |
| `MenuHandling.MenuHandler.HasMenuOpened` | src/main/java/com/danikvitek/davilib/menu/MenuHandler.java:78-80 | true exactly when the player has an entry, and always the negation of `hasMenuClosed` |
| `MenuHandling.MenuHandler.GetMenu` | src/main/java/com/danikvitek/davilib/menu/MenuHandler.java:94-96 | gives a menu exactly when the player has one open, and then the stored one |
| `MenuHandling.MenuHandler.CloseAll` | src/main/java/com/danikvitek/davilib/menu/MenuHandler.java:101-103 | leaves the registry empty; it closes every player of the snapshot of keys exactly once, and no one else; its effects are those of closing them one after the other in that order; on an empty registry it asks nothing |
| `MenuHandling.ClosesInOrderExact` | src/main/java/com/danikvitek/davilib/menu/MenuHandler.java:101-103 | closing a list of players closes the view of every online player in it and of no one else, and of no one twice when no player is listed twice |
| `MenuHandling.EnumeratesStep` | src/main/java/com/danikvitek/davilib/menu/MenuHandler.java:101-103 | taking one more key out of the snapshot extends the order, and that player's close comes after the earlier ones |
| `MenuHandling.EnumerationExact` | src/main/java/com/danikvitek/davilib/menu/MenuHandler.java:101-103 | the keys taken out of the snapshot so far are listed once each, and each of them is listed |
| `MenuHandling.MenuHandler.React` | src/main/java/com/danikvitek/davilib/menu/MenuHandler.java:110-134 | a click is forwarded exactly when an inventory was clicked, the player has a menu open, and the clicked inventory is the view's top inventory; it is forwarded with the player and slot of the event; close, quit and death each close that player's menu |
| `MenuHandling.MenuHandler.Handle` | src/main/java/com/danikvitek/davilib/menu/MenuHandler.java:110-134 | close, quit and death events remove the player's entry with the effects of `closeMenu`; a click changes neither the registry nor the server; a forwarded click appends the clicks at its slot to the player's open menu, and the menu's buttons stay as they were |
| `Menus.Menu.constructor` | src/main/java/com/danikvitek/davilib/menu/Menu.java:32-35 | a new menu over an inventory has no buttons and no clicks |
| `Menus.WithButton` | src/main/java/com/danikvitek/davilib/menu/Menu.java:44-48 | no button means exactly removal; otherwise the slot holds the new button and the inventory is untouched; every other slot is unchanged; stored slots stay in range and empty slots stay empty |
| `Menus.Menu.SetButton` | src/main/java/com/danikvitek/davilib/menu/Menu.java:44-48 | the menu becomes `WithButton` of what it was, and the method returns the receiver |
| `Menus.Removed` | src/main/java/com/danikvitek/davilib/menu/Menu.java:56-60 | the slot has no button and its cell is empty; every other slot and cell is unchanged |
| `Menus.Menu.RemoveButton` | src/main/java/com/danikvitek/davilib/menu/Menu.java:56-60 | the menu becomes `Removed` of what it was, and the method returns the receiver |
| `Menus.RemovedIdempotent` | src/main/java/com/danikvitek/davilib/menu/Menu.java:56-60 | removing twice is removing once |
| `Menus.ClicksAt` | src/main/java/com/danikvitek/davilib/menu/Menu.java:62-64 | a click calls at most one `onClick`; it calls one exactly when a button is stored at the slot, and that call is on that button |
| `Menus.Menu.PerformClick` | src/main/java/com/danikvitek/davilib/menu/Menu.java:62-64 | appends exactly the `ClicksAt` calls to the menu's click log, and nothing else changes |
| `Menus.Loaded` | src/main/java/com/danikvitek/davilib/menu/Menu.java:66-68 | every stored button is written into its own cell, and cells of slots without a button keep what they held |
| `Menus.Menu.LoadButtons` | src/main/java/com/danikvitek/davilib/menu/Menu.java:66-68 | the loop over the button table leaves the menu as `Loaded` of what it was |
| `Menus.LoadedIdempotent` | src/main/java/com/danikvitek/davilib/menu/Menu.java:66-68 | opening a second time writes nothing new |
| `Menus.OpenShowsExactlyTheButtons` | src/main/java/com/danikvitek/davilib/menu/Menu.java:66-73 | when empty slots show nothing, an opened menu shows exactly its button table, cell by cell |
| `Menus.Menu.Open` | src/main/java/com/danikvitek/davilib/menu/Menu.java:70-73 | loads the buttons, then asks the server to show the inventory to the player |
| `Menus.SetThenClickReachesButton` | src/main/java/com/danikvitek/davilib/menu/Menu.java:44-64 | a button that was set is shown at its slot once the menu is opened, and a click there calls it |
| `Menus.RemoveThenClickReachesNothing` | src/main/java/com/danikvitek/davilib/menu/Menu.java:56-68 | after removal, a click at the slot calls nothing and opening shows nothing there |
| `ChestMenus.SlotCount` | src/main/java/com/danikvitek/davilib/menu/ChestMenu.java:44-47 | succeeds exactly for 1 to 6 rows, with rows × 9 slots; otherwise fails with the invalid row count |
| `ChestMenus.ChestVariantSizes` | src/main/java/com/danikvitek/davilib/menu/SingleChestMenu.java:14-16 | the single chest menu (3 rows) has 27 slots and the double chest menu (6 rows) has 54 |
| `ChestMenus.ChestMenu.Create` | src/main/java/com/danikvitek/davilib/menu/ChestMenu.java:20-26 | fails exactly for a row count outside 1..6; otherwise gives a new menu with that row count and title, over a new empty inventory of rows × 9 slots, with no buttons and no clicks |
| `ChestMenus.ChestMenu.constructor` | src/main/java/com/danikvitek/davilib/menu/ChestMenu.java:20-26 | stores the title, the row count and the underlying menu |
| `ChestMenus.GridSlot` | src/main/java/com/danikvitek/davilib/menu/ChestMenu.java:38-42 | succeeds exactly when 0 ≤ x < 9 and 0 ≤ y < rows, and otherwise fails with the coordinates; the slot it gives lies in [0, rows × 9) and has column x and row y |
| `ChestMenus.GridSlotOfCoords` | src/main/java/com/danikvitek/davilib/menu/ChestMenu.java:38-42 | every slot of the chest is reached from its own column and row, so the addressing is onto [0, rows × 9) |
| `ChestMenus.GridSlotInjective` | src/main/java/com/danikvitek/davilib/menu/ChestMenu.java:38-42 | distinct coordinates in range never share a slot |
| `ChestMenus.ChestMenu.SetGridButton` | src/main/java/com/danikvitek/davilib/menu/ChestMenu.java:38-42 | fails, changing nothing, on coordinates outside the grid; otherwise has exactly the effect of the linear `setButton` at y × 9 + x, removal included, and returns the receiver |
| `StringUtil.Contains` | src/main/java/com/danikvitek/davilib/util/StringUtil.java:23 | `s.contains(what)` holds exactly when `what` occurs at some index of `s` |
| `StringUtil.CopyPartialInnerMatches` | src/main/java/com/danikvitek/davilib/util/StringUtil.java:21-24 | no longer than `where`; every string kept contains `what`; every string of `where` that contains `what` is kept |
| `StringUtil.MatchesAreSubsequence` | src/main/java/com/danikvitek/davilib/util/StringUtil.java:21-24 | the result is a subsequence of `where`, so the original order is kept |
| `StringUtil.MatchesCount` | src/main/java/com/danikvitek/davilib/util/StringUtil.java:21-24 | a string that contains `what` occurs in the result as often as in `where`, and any other string not at all |
| `StringUtil.AllMatchKeepsAll` | src/main/java/com/danikvitek/davilib/util/StringUtil.java:21-24 | the result is as long as `where` exactly when every string matches, and then it is `where` itself |
| `StringUtil.EmptyPatternKeepsAll` | src/main/java/com/danikvitek/davilib/util/StringUtil.java:21-24 | filtering by the empty string returns `where` unchanged |

## Left out

- The `closeMenu(Player)` and `getMenu(Player)` overloads (MenuHandler.java:44-46, 86-88) are not modelled separately: a player is modelled by their id, and the overloads only pass `player.getUniqueId()` on.
- Thread safety of the `ConcurrentHashMap` is not modelled. The model is sequential, and `closeAll` iterates over a snapshot of the keys.
- Reentrancy is not modelled: `Server` fires no events. `closeInventory` fires a close event that reaches `closeMenu` again. `CloseMenu`'s contract shows that this second call changes nothing, because the first call already left the player without a menu.
- `MenuHandling.MenuHandler.OpenMenu`: its postcondition that the player has the new menu open relies on `openInventory` firing no events, and the model's `Server` fires none. A player who already has a view open would get an inventory-close event for that view from `player.openInventory` (Menu.java:72, reached from MenuHandler.java:36). The entry is written at MenuHandler.java:35, before that call. That event would reach `onInventoryClose` (MenuHandler.java:122-124), and `closeMenu` would then remove the entry just written. After that, clicks on the new menu would be dropped at MenuHandler.java:115. This reading of the host's behaviour is not executed, and the model does not capture it.
- `openMenu` does not close a menu the player already has open before overwriting it. This is modelled as written: the old entry is overwritten, and no close is asked for it.
- What a button's `onClick` does is user code and is not modelled; only the call is recorded. A button's item appearance is not modelled either (`Button.java`, `ItemBuilder.java`).
- The inventory title is stored but has no behaviour in the model. `Bukkit.createInventory` is modelled as a fresh array of empty cells of the requested size.
- `Menus.Menu.SetButton`: requires the slot to lie in the inventory even for a non-null button. The source stores such a button without any check and fails only when the menu is opened. The model rules out that state instead of modelling the later failure.
- `Menus.Menu.RemoveButton`: requires the slot to lie in the inventory. The source lets `Inventory.setItem` fail on any other slot.
- `MenuHandling.MenuHandler.React`: compares the clicked inventory with the top inventory of the event's view, as the source does. It does not compare it with the inventory of the player's registered menu.
- `StringUtil.CopyPartialInnerMatches`, `StringUtil.Contains` and the `@NonNull` parameters: the `NullPointerException` paths are not modelled.
  - Lombok's `@NonNull` throws on a null argument, at MenuHandler.java:33-34, 53, 68, 78 and 94, Menu.java:32, 62 and 70, and StringUtil.java:21-22. Dafny's non-null types rule these calls out.
  - `copyPartialInnerMatches` throws at StringUtil.java:23 when `where` holds a null element. `seq<string>` cannot hold one.
  - Java's `String.contains` compares UTF-16 code units, while a Dafny `string` is a sequence of Unicode scalar values. The two agree on well-formed strings, but strings with lone surrogates have no counterpart in the model.
- `StringUtil.CopyPartialInnerMatches`: lists are values in the model, so "`where` is not modified" holds by construction and is not stated.
- `Builder.java`, `CodeBlock.java`, `Tuple2.java` and `GridMenu.java` are not part of this model. They are builders, helpers and an interface, with no behaviour of their own in the menu layer.
