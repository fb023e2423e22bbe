/**
 * What MenuLoader builds from a document, stated as functions of the
 * document: the specification the imperative builder in module MenuLoader is
 * proved against.
 */
module MenuModel {
  import opened Wrappers
  import opened Dom
  import opened JavaText
  import opened Controls

  const MenuRootName: string := "menu-root"
  const ContextRootName: string := "menu-context"
  const BarRootName: string := "menu-bar"

  const MenuName: string := "menu"
  const ItemName: string := "item"
  const SeparatorName: string := "separator"

  /**
   * Image loading: given whether the location names a bundled resource, the
   * rewritten path and whether to scale to 15x15, either an image view or None
   * when the lookup throws (missing bundled resource, malformed URI or URL, a
   * stream that cannot be opened).
   */
  type Resolver<I> = (bool, string, bool) -> Option<I>

  /** The node names the builder turns into an entry; every other node is skipped. */
  predicate IsEntryName(name: string) {
    name == MenuName || name == ItemName || name == SeparatorName
  }

  /** parseText: the trimmed text equals "true" up to case. */
  function ParseText(text: string): (b: bool)
    ensures b <==> PaddedCaseVariant(text, "true")
  {
    TrimEqualsIgnoreCase(text, "true");
    EqualsIgnoreCase(Trim(text), "true")
  }

  /** Where loadImageView looks for an icon. */
  datatype Location = Location(local: bool, path: string)

  /**
   * The location rewrite of loadImageView: a leading '@' marks a bundled
   * resource and is dropped; any other location has every space escaped.
   */
  function RewriteLocation(location: string): (l: Location)
    ensures l.local <==> |location| > 0 && location[0] == '@'
    ensures l.local ==> location == "@" + l.path
    ensures !l.local ==> ' ' !in l.path && |l.path| == |location| + 2 * Occurrences(location, ' ')
    ensures !l.local ==> forall k :: 0 <= k < |location| ==> ReplacedAt(location, l.path, ' ', "%20", k)
    ensures !l.local && ' ' !in location ==> l.path == location
  {
    if StartsWith(location, "@") then Location(true, location[1..])
    else Location(false, ReplaceChar(location, ' ', "%20"))
  }

  /** loadImageView: the rewritten location handed to the resolver; a lookup that throws is None. */
  function LoadImageView<I>(location: string, resize: bool, resolve: Resolver<I>): (view: Option<I>)
    ensures |location| > 0 && location[0] == '@' ==> view == resolve(true, location[1..], resize)
    ensures !(|location| > 0 && location[0] == '@') ==>
      view == resolve(false, ReplaceChar(location, ' ', "%20"), resize)
  {
    var l := RewriteLocation(location);
    resolve(l.local, l.path, resize)
  }

  /** The label: the "text" attribute, "" when absent. */
  function Label(e: XNode): string {
    GetAttribute(e, "text")
  }

  /** The id is set only when the attribute is present. */
  function IdOf(e: XNode): Option<string> {
    if HasAttribute(e, "id") then Some(GetAttribute(e, "id")) else None
  }

  /** setDisable is called only when the attribute is present; a fresh node is enabled. */
  function DisabledOf(e: XNode): bool {
    HasAttribute(e, "disabled") && ParseText(GetAttribute(e, "disabled"))
  }

  /** The local resizeIcon starts true and is overwritten only when the attribute is present. */
  function ResizeIconOf(e: XNode): bool {
    !HasAttribute(e, "resize-icon") || ParseText(GetAttribute(e, "resize-icon"))
  }

  /** The graphic is set only when there is an icon attribute and its lookup did not throw. */
  function GraphicOf<I>(e: XNode, resolve: Resolver<I>): Option<I> {
    if HasAttribute(e, "icon") then LoadImageView(GetAttribute(e, "icon"), ResizeIconOf(e), resolve) else None
  }

  /** createItem */
  function ItemFor<I>(e: XNode, resolve: Resolver<I>): MenuItem<I> {
    Item(Label(e), IdOf(e), DisabledOf(e), GraphicOf(e, resolve))
  }

  /** createMenu: the same attribute handling as createItem, and the entries of the node's children. */
  function MenuFor<I>(e: XNode, resolve: Resolver<I>): MenuItem<I>
    decreases e, |e.children| + 1
  {
    Menu(Label(e), IdOf(e), DisabledOf(e), GraphicOf(e, resolve), EntriesFor(e, |e.children|, resolve))
  }

  /** The one entry a child with an entry name adds. */
  function EntryFor<I>(c: XNode, resolve: Resolver<I>): MenuItem<I>
    requires IsEntryName(c.name)
    decreases c, |c.children| + 2
  {
    if c.name == MenuName then MenuFor(c, resolve)
    else if c.name == ItemName then ItemFor(c, resolve)
    else Separator
  }

  /** The entries built from the first n children of e, in document order. */
  function EntriesFor<I>(e: XNode, n: nat, resolve: Resolver<I>): seq<MenuItem<I>>
    requires n <= |e.children|
    decreases e, n
  {
    if n == 0 then []
    else
      var c := e.children[n - 1];
      EntriesFor(e, n - 1, resolve) + if IsEntryName(c.name) then [EntryFor(c, resolve)] else []
  }

  /** The menus a menu bar builds from the first n children of e: "menu" children only. */
  function BarMenusFor<I>(e: XNode, n: nat, resolve: Resolver<I>): seq<MenuItem<I>>
    requires n <= |e.children|
  {
    if n == 0 then []
    else
      var c := e.children[n - 1];
      BarMenusFor(e, n - 1, resolve) + if c.name == MenuName then [MenuFor(c, resolve)] else []
  }

  /** load: a Menu built from the "menu-root" element itself, or an empty Menu. */
  function LoadedMenu<I>(document: Document, resolve: Resolver<I>): MenuItem<I> {
    var root := document.documentElement;
    if root.name != MenuRootName then EmptyMenu() else MenuFor(root, resolve)
  }

  /** loadContextMenu: the entries of the "menu-context" element's children, or an empty ContextMenu. */
  function LoadedContextMenu<I>(document: Document, resolve: Resolver<I>): ContextMenu<I> {
    var root := document.documentElement;
    if root.name != ContextRootName then ContextMenu([])
    else ContextMenu(EntriesFor(root, |root.children|, resolve))
  }

  /** loadMenuBar: the menus of the "menu-bar" element's "menu" children, or an empty MenuBar. */
  function LoadedMenuBar<I>(document: Document, resolve: Resolver<I>): MenuBar<I> {
    var root := document.documentElement;
    if root.name != BarRootName then MenuBar([])
    else MenuBar(BarMenusFor(root, |root.children|, resolve))
  }

  /** The children that add an entry, in document order. */
  function EntryChildren(cs: seq<XNode>): (r: seq<XNode>)
    ensures |r| <= |cs|
    ensures forall k :: 0 <= k < |r| ==> IsEntryName(r[k].name) && r[k] in cs
  {
    if cs == [] then []
    else
      var last := cs[|cs| - 1];
      EntryChildren(cs[..|cs| - 1]) + if IsEntryName(last.name) then [last] else []
  }

  /** The children named "menu", in document order. */
  function MenuChildren(cs: seq<XNode>): (r: seq<XNode>)
    ensures |r| <= |cs|
    ensures forall k :: 0 <= k < |r| ==> r[k].name == MenuName && r[k] in cs
  {
    if cs == [] then []
    else
      var last := cs[|cs| - 1];
      MenuChildren(cs[..|cs| - 1]) + if last.name == MenuName then [last] else []
  }

  /** The Menu entries of a sequence of entries, in order. */
  function MenusOnly<I>(s: seq<MenuItem<I>>): (r: seq<MenuItem<I>>)
    ensures |r| <= |s|
    ensures forall k :: 0 <= k < |r| ==> r[k].Menu? && r[k] in s
  {
    if s == [] then []
    else MenusOnly(s[..|s| - 1]) + if s[|s| - 1].Menu? then [s[|s| - 1]] else []
  }
}
