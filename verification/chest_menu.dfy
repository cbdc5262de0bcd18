/**
 * Chest menus (ChestMenu.java): a menu whose inventory is a chest of 1 to 6
 * rows of 9 slots, addressed either by linear slot or by grid coordinates
 * (x from left to right, y from top to bottom). The single and double chest
 * menus (SingleChestMenu.java, DoubleChestMenu.java) are chest menus of 3
 * and 6 rows.
 */
module ChestMenus {
  import opened Wrappers
  import opened Bukkit
  import opened Menus

  /** Slots in one chest row. */
  const RowWidth := 9
  const MinRows := 1
  const MaxRows := 6
  /** The row counts SingleChestMenu and DoubleChestMenu pass on. */
  const SingleChestRows := 3
  const DoubleChestRows := 6

  /** The `IllegalArgumentException`s a chest menu throws. */
  datatype MenuError =
    | InvalidRowsCount(rowsCount: int)
    | IllegalCoordinates(slotX: int, slotY: int)

  /** `getSlotCount(rowsCount)`: a whole number of rows of 9 slots, for 1 to 6 rows. */
  function SlotCount(rowsCount: int): (r: Result<nat, MenuError>)
    ensures r.Success? <==> MinRows <= rowsCount <= MaxRows
    ensures r.Failure? ==> r.error == InvalidRowsCount(rowsCount)
    ensures r.Success? ==> r.value % RowWidth == 0 && r.value / RowWidth == rowsCount
  {
    if MinRows <= rowsCount && rowsCount <= MaxRows then Success(rowsCount * RowWidth)
    else Failure(InvalidRowsCount(rowsCount))
  }

  /** The grid coordinates of a linear slot: its column and its row. */
  function GridCoords(slot: nat): (nat, nat)
  {
    (slot % RowWidth, slot / RowWidth)
  }

  /** The linear slot of grid coordinates (x, y) in a chest of `rowsCount` rows:
      in range exactly when the coordinates are, and the slot whose column and
      row are x and y. */
  function GridSlot(slotX: int, slotY: int, rowsCount: int): (r: Result<nat, MenuError>)
    ensures r.Success? <==> 0 <= slotX < RowWidth && 0 <= slotY < rowsCount
    ensures r.Failure? ==> r.error == IllegalCoordinates(slotX, slotY)
    ensures r.Success? ==> r.value < rowsCount * RowWidth && GridCoords(r.value) == (slotX, slotY)
  {
    if slotY < 0 || slotY >= rowsCount || slotX < 0 || slotX >= RowWidth then
      Failure(IllegalCoordinates(slotX, slotY))
    else
      Success(slotY * RowWidth + slotX)
  }

  /** Every slot of the chest is reached from exactly one pair of coordinates:
      its own column and row (together with the last clause of GridSlot, the
      addressing is a bijection onto [0, rowsCount * 9)). */
  lemma {:induction false} GridSlotOfCoords(slot: int, rowsCount: int)
    requires 0 <= slot < rowsCount * RowWidth
    ensures GridSlot(slot % RowWidth, slot / RowWidth, rowsCount) == Success(slot)
  {
  }

  /** Distinct coordinates in range never share a slot. */
  lemma GridSlotInjective(x1: int, y1: int, x2: int, y2: int, rowsCount: int)
    requires GridSlot(x1, y1, rowsCount).Success? && GridSlot(x2, y2, rowsCount).Success?
    requires GridSlot(x1, y1, rowsCount) == GridSlot(x2, y2, rowsCount)
    ensures x1 == x2 && y1 == y2
  {
  }

  /** The single and double chest menus hold 27 and 54 slots. */
  lemma ChestVariantSizes()
    ensures SlotCount(SingleChestRows) == Success(27)
    ensures SlotCount(DoubleChestRows) == Success(54)
  {
  }

  class ChestMenu {
    const rowsCount: int
    /** The inventory's title; none when the chest is untitled. */
    const title: Option<string>
    /** The menu this chest menu is (ChestMenu extends Menu). */
    const menu: Menu

    ghost predicate Valid()
      reads this, menu
    {
      MinRows <= rowsCount <= MaxRows && menu.inventory.Length == rowsCount * RowWidth && menu.Valid()
    }

    constructor (title: Option<string>, rowsCount: int, menu: Menu)
      requires MinRows <= rowsCount <= MaxRows && menu.inventory.Length == rowsCount * RowWidth
      requires menu.Valid()
      ensures this.title == title && this.rowsCount == rowsCount && this.menu == menu
      ensures Valid()
    {
      this.title := title;
      this.rowsCount := rowsCount;
      this.menu := menu;
    }

    /** `new ChestMenu(title, rowsCount)`: fails on a row count outside 1..6;
        otherwise an empty menu over a new empty chest of rowsCount * 9 slots. */
    static method Create(title: Option<string>, rowsCount: int) returns (r: Result<ChestMenu, MenuError>)
      ensures r.Failure? <==> !(MinRows <= rowsCount <= MaxRows)
      ensures r.Failure? ==> r.error == InvalidRowsCount(rowsCount)
      ensures r.Success? ==> var c := r.value;
        && fresh(c) && fresh(c.menu) && fresh(c.menu.inventory) && c.Valid()
        && c.rowsCount == rowsCount && c.title == title
        && c.menu.inventory.Length == rowsCount * RowWidth
        && c.menu.buttons == map[] && c.menu.clicks == []
        && NoStrayItems(c.menu.View())
    {
      var size := SlotCount(rowsCount);
      if size.Failure? {
        return Failure(size.error);
      }
      var inventory := CreateInventory(size.value);
      var menu := new Menu(inventory);
      var chest := new ChestMenu(title, rowsCount, menu);
      return Success(chest);
    }

    /** `setButton(slotX, slotY, button)`: fails, changing nothing, on coordinates
        outside the grid; otherwise does what the linear `setButton` does at
        slot y * 9 + x, and returns this menu. */
    method SetGridButton(slotX: int, slotY: int, button: Option<Button>) returns (r: Result<ChestMenu, MenuError>)
      requires Valid()
      modifies menu`buttons, menu.inventory
      ensures Valid()
      ensures r.Failure? <==> !(0 <= slotX < RowWidth && 0 <= slotY < rowsCount)
      ensures r.Failure? ==> r.error == IllegalCoordinates(slotX, slotY) && menu.View() == old(menu.View())
      ensures r.Success? ==>
        r.value == this && menu.View() == WithButton(old(menu.View()), slotY * RowWidth + slotX, button)
    {
      var slot := GridSlot(slotX, slotY, rowsCount);
      if slot.Failure? {
        return Failure(slot.error);
      }
      var _ := menu.SetButton(slot.value, button);
      return Success(this);
    }
  }
}
