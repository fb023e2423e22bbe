/**
 * MenuLoader as the source writes it: entry points that check the root tag,
 * then indexed loops over the child nodes that append each built entry to the
 * container, and node builders that start from a fresh node and apply the
 * attributes one setter at a time. Each is proved to build exactly what
 * module MenuModel specifies.
 */
module MenuLoader {
  import opened Wrappers
  import opened Dom
  import opened Controls
  import opened MenuModel

  /** load: a non-"menu-root" document gives an empty Menu; otherwise the root element itself becomes the Menu. */
  method Load<I>(document: Document, resolve: Resolver<I>) returns (menu: MenuItem<I>)
    ensures menu == LoadedMenu(document, resolve)
  {
    var root := document.documentElement;
    if root.name != MenuRootName {
      return EmptyMenu();
    }
    menu := CreateMenu(root, resolve);
  }

  /** loadContextMenu: one entry per "menu", "item" or "separator" child of a "menu-context" root. */
  method LoadContextMenu<I>(document: Document, resolve: Resolver<I>) returns (result: ContextMenu<I>)
    ensures result == LoadedContextMenu(document, resolve)
  {
    var root := document.documentElement;
    result := ContextMenu([]);
    if root.name != ContextRootName {
      return;
    }
    var nodeList := root.children;
    for i := 0 to |nodeList|
      invariant result.items == EntriesFor(root, i, resolve)
    {
      var current := nodeList[i];
      if current.name == MenuName {
        var menu := CreateMenu(current, resolve);
        result := ContextMenu(result.items + [menu]);
      }
      if current.name == ItemName {
        var item := CreateItem(current, resolve);
        result := ContextMenu(result.items + [item]);
      }
      if current.name == SeparatorName {
        result := ContextMenu(result.items + [Separator]);
      }
    }
  }

  /** loadMenuBar: one Menu per "menu" child of a "menu-bar" root; other children are dropped. */
  method LoadMenuBar<I>(document: Document, resolve: Resolver<I>) returns (result: MenuBar<I>)
    ensures result == LoadedMenuBar(document, resolve)
  {
    var root := document.documentElement;
    result := MenuBar([]);
    if root.name != BarRootName {
      return;
    }
    var nodeList := root.children;
    for i := 0 to |nodeList|
      invariant result.menus == BarMenusFor(root, i, resolve)
    {
      var current := nodeList[i];
      if current.name == MenuName {
        var menu := CreateMenu(current, resolve);
        result := MenuBar(result.menus + [menu]);
      }
    }
  }

  /** createItem: a fresh item whose id, disabled flag and graphic are set only as the attributes say. */
  method CreateItem<I>(node: XNode, resolve: Resolver<I>) returns (item: MenuItem<I>)
    ensures item == ItemFor(node, resolve)
  {
    var nodeText := GetAttribute(node, "text");
    var id: Option<string> := None;
    var disabled := false;
    var graphic: Option<I> := None;
    var resizeIcon := true;

    if HasAttribute(node, "id") {
      id := Some(GetAttribute(node, "id"));
    }
    if HasAttribute(node, "disabled") {
      disabled := ParseText(GetAttribute(node, "disabled"));
    }
    if HasAttribute(node, "resize-icon") {
      resizeIcon := ParseText(GetAttribute(node, "resize-icon"));
    }
    if HasAttribute(node, "icon") {
      var imageView := LoadImageView(GetAttribute(node, "icon"), resizeIcon, resolve);
      if imageView.Some? {
        graphic := imageView;
      }
    }
    item := Item(nodeText, id, disabled, graphic);
  }

  /** createMenu: the attributes as in createItem, then one entry per "menu", "item" or "separator" child. */
  method CreateMenu<I>(node: XNode, resolve: Resolver<I>) returns (menu: MenuItem<I>)
    ensures menu == MenuFor(node, resolve)
    decreases node
  {
    var mName := GetAttribute(node, "text");
    var id: Option<string> := None;
    var disabled := false;
    var graphic: Option<I> := None;
    var resizeIcon := true;

    if HasAttribute(node, "id") {
      id := Some(GetAttribute(node, "id"));
    }
    if HasAttribute(node, "disabled") {
      disabled := ParseText(GetAttribute(node, "disabled"));
    }
    if HasAttribute(node, "resize-icon") {
      resizeIcon := ParseText(GetAttribute(node, "resize-icon"));
    }
    if HasAttribute(node, "icon") {
      var imageView := LoadImageView(GetAttribute(node, "icon"), resizeIcon, resolve);
      if imageView.Some? {
        graphic := imageView;
      }
    }

    var items: seq<MenuItem<I>> := [];
    var children := node.children;
    for i := 0 to |children|
      invariant items == EntriesFor(node, i, resolve)
    {
      var current := children[i];
      if current.name == MenuName {
        var sub := CreateMenu(current, resolve);
        items := items + [sub];
      }
      if current.name == ItemName {
        var item := CreateItem(current, resolve);
        items := items + [item];
      }
      if current.name == SeparatorName {
        items := items + [Separator];
      }
    }
    menu := Menu(mName, id, disabled, graphic, items);
  }
}
