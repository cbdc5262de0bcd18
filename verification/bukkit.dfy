/**
 * The part of the Bukkit server the menu layer talks to: player ids,
 * buttons, inventories, and the calls that show or hide an inventory.
 * Whether `Bukkit.getPlayer(id)` finds a player is an input (the server's
 * `online` set); opening and closing a player's inventory view are
 * recorded, in order, as effects.
 */
module Bukkit {
  import opened Wrappers

  /** A player's unique id (a UUID on the server). */
  type PlayerId = int

  /** A menu button. Its item appearance and the body of its click callback
      belong to the code that creates it, so the model only tells buttons apart. */
  datatype Button = Button(id: nat)

  /** An inventory: one optional item per slot. Menus only place buttons in it. */
  type Inventory = array<Option<Button>>

  /** A call into the server that changes what a player sees. */
  datatype Effect =
    | InventoryOpened(player: PlayerId, inventory: Inventory)
    | InventoryClosed(player: PlayerId)

  /** `Bukkit.createInventory(null, size[, title])`: a new, empty inventory. */
  method CreateInventory(size: nat) returns (inventory: Inventory)
    ensures fresh(inventory) && inventory.Length == size
    ensures forall i :: 0 <= i < size ==> inventory[i] == None
  {
    inventory := new Option<Button>[size](_ => None);
  }

  class Server {
    /** The players `Bukkit.getPlayer` finds; the menu layer never changes it. */
    const online: set<PlayerId>
    /** Every inventory view opened or closed so far, oldest first. */
    var effects: seq<Effect>

    constructor (online: set<PlayerId>)
      ensures this.online == online && effects == []
    {
      this.online := online;
      effects := [];
    }

    /** `player.openInventory(inventory)`. */
    method OpenInventory(player: PlayerId, inventory: Inventory)
      modifies this`effects
      ensures effects == old(effects) + [InventoryOpened(player, inventory)]
    {
      effects := effects + [InventoryOpened(player, inventory)];
    }

    /** `player.closeInventory()`. */
    method CloseInventory(player: PlayerId)
      modifies this`effects
      ensures effects == old(effects) + [InventoryClosed(player)]
    {
      effects := effects + [InventoryClosed(player)];
    }
  }
}
