/**
 * The javafx.scene.control objects the menu builder creates, as values. The
 * type parameter I stands for the image view a menu entry shows as its
 * graphic.
 */
module Controls {
  import opened Wrappers

  /**
   * MenuItem and the two subclasses the builder creates: SeparatorMenuItem and
   * Menu (a MenuItem that holds further items). A fresh node has no id, is
   * enabled and shows no graphic; the builder only changes what the markup sets.
   */
  datatype MenuItem<I> =
    | Item(text: string, id: Option<string>, disabled: bool, graphic: Option<I>)
    | Separator
    | Menu(text: string, id: Option<string>, disabled: bool, graphic: Option<I>, items: seq<MenuItem<I>>)

  datatype ContextMenu<I> = ContextMenu(items: seq<MenuItem<I>>)

  /** MenuBar.getMenus() holds Menu objects only. */
  datatype MenuBar<I> = MenuBar(menus: seq<MenuItem<I>>)

  /** What `new Menu()` gives: no text, no id, enabled, no graphic, no items. */
  function EmptyMenu<I>(): MenuItem<I> {
    Menu("", None, false, None, [])
  }
}
