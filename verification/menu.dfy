/**
 * A menu (Menu.java): a table from slot to button, plus the inventory the
 * buttons are shown in. A button is written into the inventory only when
 * the menu is opened; removing a button clears its cell at once.
 */
module Menus {
  import opened Wrappers
  import opened Bukkit

  /** A recorded call `button.onClick(menu, event)`, with the slot the event reported. */
  datatype Click = Click(button: Button, slot: int)

  /** What a menu holds at one moment: its button table and the items in its inventory. */
  datatype MenuView = MenuView(buttons: map<int, Button>, cells: seq<Option<Button>>)

  /** `buttons.get(slot)`: the button stored at a slot, or nothing. */
  function Lookup(buttons: map<int, Button>, slot: int): Option<Button>
  {
    if slot in buttons then Some(buttons[slot]) else None
  }

  /** Every stored button sits at a slot the inventory has. */
  predicate SlotsInRange(v: MenuView)
  {
    forall k :: k in v.buttons ==> 0 <= k < |v.cells|
  }

  /** A slot that holds no button shows no item. */
  predicate NoStrayItems(v: MenuView)
  {
    forall k :: 0 <= k < |v.cells| && k !in v.buttons ==> v.cells[k] == None
  }

  /** `removeButton(slot)`: the slot loses its button and its cell is emptied;
      every other slot and cell is left as it was. */
  function Removed(v: MenuView, slot: int): (r: MenuView)
    requires 0 <= slot < |v.cells|
    ensures |r.cells| == |v.cells|
    ensures Lookup(r.buttons, slot) == None && r.cells[slot] == None
    ensures forall k :: k != slot ==> Lookup(r.buttons, k) == Lookup(v.buttons, k)
    ensures forall k :: 0 <= k < |v.cells| && k != slot ==> r.cells[k] == v.cells[k]
    ensures SlotsInRange(v) ==> SlotsInRange(r)
    ensures NoStrayItems(v) ==> NoStrayItems(r)
  {
    MenuView(v.buttons - {slot}, v.cells[slot := None])
  }

  /** `setButton(slot, button)`: no button (`null`) means removal; otherwise the
      button replaces whatever the slot held, and the inventory is not touched. */
  function WithButton(v: MenuView, slot: int, button: Option<Button>): (r: MenuView)
    requires 0 <= slot < |v.cells|
    ensures button.None? ==> r == Removed(v, slot)
    ensures button.Some? ==> Lookup(r.buttons, slot) == button && r.cells == v.cells
    ensures forall k :: k != slot ==> Lookup(r.buttons, k) == Lookup(v.buttons, k)
    ensures SlotsInRange(v) ==> SlotsInRange(r)
    ensures NoStrayItems(v) ==> NoStrayItems(r)
  {
    if button.None? then Removed(v, slot) else MenuView(v.buttons[slot := button.value], v.cells)
  }

  /** `loadButtons()`: every stored button is written into its own cell; cells
      of slots without a button keep what they showed. */
  function Loaded(v: MenuView): (r: MenuView)
    ensures r.buttons == v.buttons && |r.cells| == |v.cells|
    ensures forall k :: k in v.buttons && 0 <= k < |v.cells| ==> r.cells[k] == Some(v.buttons[k])
    ensures forall k :: 0 <= k < |v.cells| && k !in v.buttons ==> r.cells[k] == v.cells[k]
    ensures NoStrayItems(v) ==> NoStrayItems(r)
  {
    MenuView(v.buttons, seq(|v.cells|, i requires 0 <= i < |v.cells| =>
      if i in v.buttons then Some(v.buttons[i]) else v.cells[i]))
  }

  /** `performClick`: the `onClick` calls one click at `slot` makes, at most one,
      and one exactly when a button is stored there. */
  function ClicksAt(buttons: map<int, Button>, slot: int): (r: seq<Click>)
    ensures |r| <= 1
    ensures r != [] <==> slot in buttons
    ensures forall c :: c in r ==> c.slot == slot && Lookup(buttons, slot) == Some(c.button)
  {
    if slot in buttons then [Click(buttons[slot], slot)] else []
  }

  /** Removing twice is removing once. */
  lemma RemovedIdempotent(v: MenuView, slot: int)
    requires 0 <= slot < |v.cells|
    ensures Removed(Removed(v, slot), slot) == Removed(v, slot)
  {
  }

  /** Opening a second time writes nothing new. */
  lemma LoadedIdempotent(v: MenuView)
    ensures Loaded(Loaded(v)) == Loaded(v)
  {
  }

  /** Once opened, a menu whose empty slots show nothing displays exactly its
      button table: every cell holds the button stored at its slot, or nothing. */
  lemma OpenShowsExactlyTheButtons(v: MenuView)
    requires NoStrayItems(v)
    ensures forall k :: 0 <= k < |v.cells| ==> Loaded(v).cells[k] == Lookup(v.buttons, k)
  {
  }

  /** A button set and then shown by opening the menu is the one a click at
      its slot reaches. */
  lemma SetThenClickReachesButton(v: MenuView, slot: int, button: Button)
    requires 0 <= slot < |v.cells|
    ensures ClicksAt(WithButton(v, slot, Some(button)).buttons, slot) == [Click(button, slot)]
    ensures Loaded(WithButton(v, slot, Some(button))).cells[slot] == Some(button)
  {
  }

  /** After removal, a click at the slot calls nothing and opening shows nothing there. */
  lemma RemoveThenClickReachesNothing(v: MenuView, slot: int)
    requires 0 <= slot < |v.cells|
    ensures ClicksAt(Removed(v, slot).buttons, slot) == []
    ensures Loaded(Removed(v, slot)).cells[slot] == None
  {
  }

  class Menu {
    /** The inventory the menu is shown in; its size is fixed at creation. */
    const inventory: Inventory
    /** The `buttons` map: slot to button. */
    var buttons: map<int, Button>
    /** Every `onClick(this, event)` call made so far, oldest first. */
    ghost var clicks: seq<Click>

    /** The menu performs no bounds check itself: stored slots must be cells of the inventory. */
    ghost predicate Valid()
      reads this
    {
      forall k :: k in buttons ==> 0 <= k < inventory.Length
    }

    ghost function View(): (v: MenuView)
      reads this, inventory
      ensures Valid() ==> SlotsInRange(v)
    {
      MenuView(buttons, inventory[..])
    }

    constructor (inventory: Inventory)
      ensures this.inventory == inventory && buttons == map[] && clicks == []
      ensures Valid()
    {
      this.inventory := inventory;
      buttons := map[];
      clicks := [];
    }

    method SetButton(slot: int, button: Option<Button>) returns (self: Menu)
      requires Valid() && 0 <= slot < inventory.Length
      modifies this`buttons, inventory
      ensures self == this && Valid()
      ensures View() == WithButton(old(View()), slot, button)
    {
      if button.None? {
        self := RemoveButton(slot);
        return;
      }
      buttons := buttons[slot := button.value];
      self := this;
    }

    method RemoveButton(slot: int) returns (self: Menu)
      requires Valid() && 0 <= slot < inventory.Length
      modifies this`buttons, inventory
      ensures self == this && Valid()
      ensures View() == Removed(old(View()), slot)
    {
      buttons := buttons - {slot};
      inventory[slot] := None;
      self := this;
    }

    method PerformClick(slot: int)
      modifies this`clicks
      ensures clicks == old(clicks) + ClicksAt(buttons, slot)
    {
      if slot in buttons {
        clicks := clicks + [Click(buttons[slot], slot)];
      }
    }

    method LoadButtons()
      requires Valid()
      modifies inventory
      ensures View() == Loaded(old(View()))
    {
      var pending := buttons.Keys;
      while pending != {}
        invariant pending <= buttons.Keys
        invariant forall k :: 0 <= k < inventory.Length ==>
          inventory[k] == if k in buttons && k !in pending then Some(buttons[k]) else old(inventory[k])
        decreases pending
      {
        if forall k :: k !in pending {
          assert false;  // a non-empty set has an element
        }
        var slot :| slot in pending;
        inventory[slot] := Some(buttons[slot]);
        pending := pending - {slot};
      }
      assert inventory[..] == Loaded(old(View())).cells;
    }

    method Open(player: PlayerId, server: Server)
      requires Valid()
      modifies inventory, server`effects
      ensures View() == Loaded(old(View()))
      ensures server.effects == old(server.effects) + [InventoryOpened(player, inventory)]
    {
      LoadButtons();
      server.OpenInventory(player, inventory);
    }
  }
}
