/**
 * The menu registry (MenuHandler.java): which menu each player has open, at
 * most one per player, and the listener that turns inventory clicks into
 * button clicks and inventory-close, quit and death events into closing the
 * player's menu.
 */
module MenuHandling {
  import opened Wrappers
  import opened Bukkit
  import opened Menus

  /** The four server events the listener handles. For a click: the inventory
      clicked, if any, and the top inventory of the player's view. */
  datatype Event =
    | InventoryClick(player: PlayerId, clickedInventory: Option<Inventory>, topInventory: Inventory, slot: int)
    | InventoryClose(player: PlayerId)
    | PlayerQuit(player: PlayerId)
    | PlayerDeath(player: PlayerId)

  /** What the listener does with an event. */
  datatype Reaction =
    | Ignore
    | ForwardClick(player: PlayerId, slot: int)
    | Close(player: PlayerId)

  /** No two entries of a sequence are equal. */
  predicate Distinct<T(==)>(s: seq<T>)
  {
    forall i, j :: 0 <= i < j < |s| ==> s[i] != s[j]
  }

  /** What `closeMenu(id)` asks of the server: to close the player's inventory
      view exactly when the player had a menu open and `Bukkit.getPlayer` finds them. */
  function CloseEffects(wasOpen: set<PlayerId>, online: set<PlayerId>, id: PlayerId): (r: seq<Effect>)
    ensures |r| <= 1
    ensures r != [] <==> id in wasOpen && id in online
    ensures forall e :: e in r ==> e == InventoryClosed(id)
  {
    if id in wasOpen && id in online then [InventoryClosed(id)] else []
  }

  /** For a player with a menu open, what a close asks depends on that player alone. */
  lemma CloseEffectsOfOpen(wasOpen: set<PlayerId>, online: set<PlayerId>, id: PlayerId)
    requires id in wasOpen
    ensures CloseEffects(wasOpen, online, id) == CloseEffects({id}, online, id)
  {
  }

  /** What closing the players of `order` one after the other, each with a
      menu open, asks of the server. */
  function ClosesInOrder(order: seq<PlayerId>, online: set<PlayerId>): seq<Effect>
  {
    if order == [] then []
    else
      var last := order[|order| - 1];
      ClosesInOrder(order[..|order| - 1], online) + CloseEffects({last}, online, last)
  }

  /** Closing every player of `order` closes the view of each online player
      among them, of no one else, and of no one twice when no player is listed twice. */
  lemma {:induction false} ClosesInOrderExact(order: seq<PlayerId>, online: set<PlayerId>)
    ensures forall e :: e in ClosesInOrder(order, online) ==> e.InventoryClosed? && e.player in order && e.player in online
    ensures forall p :: p in order && p in online ==> InventoryClosed(p) in ClosesInOrder(order, online)
    ensures Distinct(order) ==> Distinct(ClosesInOrder(order, online))
  {
    if order != [] {
      var last := order[|order| - 1];
      var earlier := order[..|order| - 1];
      ClosesInOrderExact(earlier, online);
      assert forall p :: p in order ==> p in earlier || p == last;
    }
  }

  /** `order` lists players taken one at a time out of `snapshot`, each while
      it was still there, and `pending` is what is left. */
  ghost predicate Enumerates(order: seq<PlayerId>, snapshot: set<PlayerId>, pending: set<PlayerId>)
    decreases |order|
  {
    if order == [] then pending == snapshot
    else
      var last := order[|order| - 1];
      last !in pending && Enumerates(order[..|order| - 1], snapshot, pending + {last})
  }

  /** Taking one more pending player out extends the enumeration, and the
      server is asked for that player's close after the earlier ones. */
  lemma EnumeratesStep(order: seq<PlayerId>, snapshot: set<PlayerId>, pending: set<PlayerId>, id: PlayerId, online: set<PlayerId>)
    requires Enumerates(order, snapshot, pending) && id in pending
    ensures Enumerates(order + [id], snapshot, pending - {id})
    ensures ClosesInOrder(order + [id], online) == ClosesInOrder(order, online) + CloseEffects({id}, online, id)
  {
    assert (order + [id])[..|order|] == order;
    assert (pending - {id}) + {id} == pending;
  }

  /** An enumeration lists every player taken out of the snapshot exactly once. */
  lemma {:induction false} EnumerationExact(order: seq<PlayerId>, snapshot: set<PlayerId>, pending: set<PlayerId>)
    requires Enumerates(order, snapshot, pending)
    ensures pending <= snapshot && Distinct(order)
    ensures forall i :: 0 <= i < |order| ==> order[i] in snapshot && order[i] !in pending
    ensures forall p :: p in snapshot && p !in pending ==> p in order
  {
    if order != [] {
      var n := |order| - 1;
      var front, last := order[..n], order[n];
      EnumerationExact(front, snapshot, pending + {last});
      assert order == front + [last];
      forall p | p in snapshot && p !in pending
        ensures p in order
      {
        if p != last {
          assert p in front;
        }
      }
    }
  }

  /** The value-level facts behind closing twice: removing the key again leaves
      the registry as the first removal left it, and a close computed over the
      registry without the key asks nothing. For the method itself, idempotence
      follows from `CloseMenu`'s `HasMenuClosed` postcondition and its no-op
      clause for a player without a menu. */
  lemma CloseMenuTwice(openedMenus: map<PlayerId, Menu>, online: set<PlayerId>, id: PlayerId)
    ensures (openedMenus - {id}) - {id} == openedMenus - {id}
    ensures CloseEffects((openedMenus - {id}).Keys, online, id) == []
  {
  }

  class MenuHandler {
    /** `openedMenus`: each player's open menu. */
    var openedMenus: map<PlayerId, Menu>

    constructor ()
      ensures openedMenus == map[]
    {
      openedMenus := map[];
    }

    /** The menus a handled event may touch: the player's open menu, if any. */
    function MenusOf(player: PlayerId): set<Menu>
      reads this
    {
      if player in openedMenus then {openedMenus[player]} else {}
    }

    function HasMenuClosed(playerId: PlayerId): (closed: bool)
      reads this
      ensures closed <==> playerId !in openedMenus
    {
      openedMenus == map[] || playerId !in openedMenus
    }

    function HasMenuOpened(playerId: PlayerId): (isOpen: bool)
      reads this
      ensures isOpen <==> playerId in openedMenus
      ensures isOpen == !HasMenuClosed(playerId)
    {
      openedMenus != map[] && playerId in openedMenus
    }

    function GetMenu(playerId: PlayerId): (r: Option<Menu>)
      reads this
      ensures r.Some? <==> HasMenuOpened(playerId)
      ensures r.Some? ==> r.value == openedMenus[playerId]
    {
      if playerId in openedMenus then Some(openedMenus[playerId]) else None
    }

    method OpenMenu(player: PlayerId, menu: Menu, server: Server)
      requires menu.Valid()
      modifies this, menu.inventory, server`effects
      ensures openedMenus == old(openedMenus)[player := menu]
      ensures HasMenuOpened(player) && GetMenu(player) == Some(menu)
      ensures forall p :: p != player ==> GetMenu(p) == old(GetMenu(p))
      ensures menu.View() == Loaded(old(menu.View()))
      ensures server.effects == old(server.effects) + [InventoryOpened(player, menu.inventory)]
    {
      openedMenus := openedMenus[player := menu];
      menu.Open(player, server);
    }

    method CloseMenu(playerId: PlayerId, server: Server)
      modifies this, server`effects
      ensures openedMenus == old(openedMenus) - {playerId}
      ensures HasMenuClosed(playerId) && GetMenu(playerId) == None
      ensures forall p :: p != playerId ==> GetMenu(p) == old(GetMenu(p))
      ensures server.effects == old(server.effects) + CloseEffects(old(openedMenus.Keys), server.online, playerId)
      ensures old(HasMenuClosed(playerId)) ==>
        openedMenus == old(openedMenus) && server.effects == old(server.effects)
    {
      if HasMenuClosed(playerId) {
        return;
      }
      openedMenus := openedMenus - {playerId};
      if playerId !in server.online {
        return;
      }
      server.CloseInventory(playerId);
    }

    /** `closeAll()`: closes the menu of every player in a snapshot of the
        registry's keys, in some order; returns that order. */
    method CloseAll(server: Server) returns (ghost order: seq<PlayerId>)
      modifies this, server`effects
      ensures openedMenus == map[]
      ensures Distinct(order)
      ensures forall i :: 0 <= i < |order| ==> order[i] in old(openedMenus)
      ensures forall p :: p in old(openedMenus) ==> p in order
      ensures server.effects == old(server.effects) + ClosesInOrder(order, server.online)
      ensures old(openedMenus) == map[] ==> server.effects == old(server.effects)
    {
      var pending := openedMenus.Keys;
      order := [];
      while pending != {}
        invariant openedMenus.Keys == pending
        invariant Enumerates(order, old(openedMenus.Keys), pending)
        invariant server.effects == old(server.effects) + ClosesInOrder(order, server.online)
        decreases pending
      {
        if forall p :: p !in pending {
          assert false;  // a non-empty set has an element
        }
        var id :| id in pending;
        CloseEffectsOfOpen(pending, server.online, id);
        CloseMenu(id, server);
        EnumeratesStep(order, old(openedMenus.Keys), pending, id, server.online);
        pending := pending - {id};
        order := order + [id];
      }
      assert Distinct(order)
        && (forall i :: 0 <= i < |order| ==> order[i] in old(openedMenus))
        && (forall p :: p in old(openedMenus) ==> p in order)
      by {
        EnumerationExact(order, old(openedMenus.Keys), {});
      }
    }

    /** What the listener does with an event: a click is forwarded to the
        player's menu exactly when an inventory was clicked, the player has a
        menu open, and the clicked inventory is the view's top inventory; the
        three other events close the player's menu. */
    function React(e: Event): (r: Reaction)
      reads this
      ensures r.ForwardClick? <==>
        e.InventoryClick? && e.clickedInventory.Some? && HasMenuOpened(e.player)
        && e.clickedInventory.value == e.topInventory
      ensures r.ForwardClick? ==> r.player == e.player && r.slot == e.slot
      ensures r.Close? <==> !e.InventoryClick?
      ensures r.Close? ==> r.player == e.player
    {
      match e
      case InventoryClick(player, clicked, top, slot) =>
        if clicked.None? then Ignore
        else if HasMenuClosed(player) then Ignore
        else if clicked.value == top then ForwardClick(player, slot)
        else Ignore
      case InventoryClose(player) => Close(player)
      case PlayerQuit(player) => Close(player)
      case PlayerDeath(player) => Close(player)
    }

    /** The listener's four handlers. */
    method Handle(e: Event, server: Server)
      modifies this, server`effects, MenusOf(e.player)
      ensures old(React(e)).Close? ==>
        && openedMenus == old(openedMenus) - {e.player}
        && server.effects == old(server.effects) + CloseEffects(old(openedMenus.Keys), server.online, e.player)
      ensures !old(React(e)).Close? ==>
        openedMenus == old(openedMenus) && server.effects == old(server.effects)
      ensures forall m :: m in old(MenusOf(e.player)) ==>
        && m.buttons == old(m.buttons)
        && m.clicks == old(m.clicks) + (if old(React(e)).ForwardClick? then ClicksAt(m.buttons, e.slot) else [])
    {
      match e
      case InventoryClick(player, clicked, top, slot) =>
        if clicked.None? {
          return;
        }
        if HasMenuClosed(player) {
          return;
        }
        var menu := openedMenus[player];
        if clicked.value == top {
          menu.PerformClick(slot);
        }
      case InventoryClose(player) =>
        CloseMenu(player, server);
      case PlayerQuit(player) =>
        CloseMenu(player, server);
      case PlayerDeath(player) =>
        CloseMenu(player, server);
    }
  }
}
