/** Properties of what MenuLoader builds, proved about module MenuModel. */
module MenuFacts {
  import opened Wrappers
  import opened Dom
  import opened JavaText
  import opened Controls
  import opened MenuModel

  // ---------------------------------------------------------------
  // parseText
  // ---------------------------------------------------------------

  lemma ParseTextAcceptsExamples()
    ensures ParseText("true") && ParseText("TRUE")
  {
    TrimPadded("", "true", "");
    assert "" + "true" + "" == "true";
    TrimPadded("", "TRUE", "");
    assert "" + "TRUE" + "" == "TRUE";
  }

  lemma ParseTextAcceptsPaddedExample()
    ensures ParseText(" TRUE ")
  {
    assert EqualsIgnoreCase("TRUE", "true");
    PaddedTrims(" ", "TRUE", " ", "true");
    assert " " + "TRUE" + " " == " TRUE ";
  }

  lemma ParseTextRejectsExamples()
    ensures !ParseText("") && !ParseText("yes") && !ParseText("false") && !ParseText("t rue")
  {
    assert |Trim("")| == 0;
    assert |Trim("yes")| <= 3;
    TrimPadded("", "false", "");
    assert "" + "false" + "" == "false";
    assert |Trim("false")| == 5;
    TrimPadded("", "t rue", "");
    assert "" + "t rue" + "" == "t rue";
    assert |Trim("t rue")| == 5;
  }

  // ---------------------------------------------------------------
  // Icon locations and failed loads
  // ---------------------------------------------------------------

  /** The space escaping of a non-bundled location can be undone when the location holds no '%'. */
  lemma RewrittenLocationDecodes(location: string)
    requires !RewriteLocation(location).local
    requires '%' !in location
    ensures UnescapeSpaces(RewriteLocation(location).path) == location
  {
    UnescapeEscapedSpaces(location);
  }

  /**
   * An icon whose lookup throws (the resolver gives None) leaves the node
   * without a graphic and otherwise exactly as without an icon attribute.
   */
  lemma FailedIconKeepsNode<I>(e: XNode, resolve: Resolver<I>)
    requires HasAttribute(e, "icon")
    requires LoadImageView(GetAttribute(e, "icon"), ResizeIconOf(e), resolve) == None
    ensures ItemFor(e, resolve) == ItemFor(e.(attrs := e.attrs - {"icon"}), resolve)
    ensures MenuFor(e, resolve) == MenuFor(e.(attrs := e.attrs - {"icon"}), resolve)
    ensures ItemFor(e, resolve).graphic == None && MenuFor(e, resolve).graphic == None
  {
    var f := e.(attrs := e.attrs - {"icon"});
    assert forall a :: a != "icon" ==> (a in f.attrs <==> a in e.attrs);
    assert forall a :: a != "icon" && a in f.attrs ==> f.attrs[a] == e.attrs[a];
    assert Label(f) == Label(e) && IdOf(f) == IdOf(e) && DisabledOf(f) == DisabledOf(e);
    SameEntryChildrenSameEntries(e, f, resolve);
  }

  /** A bundled location loses its '@' only; any other location has each space, and only each space, escaped. */
  lemma RewriteLocationExamples()
    ensures RewriteLocation("@icons/open file.png") == Location(true, "icons/open file.png")
    ensures RewriteLocation("a b%") == Location(false, "a%20b%")
  {
    assert ReplaceChar("%", ' ', "%20") == "%";
    assert ReplaceChar("b%", ' ', "%20") == "b%";
    assert ReplaceChar(" b%", ' ', "%20") == "%20b%";
    assert ReplaceChar("a b%", ' ', "%20") == "a%20b%";
  }

  // ---------------------------------------------------------------
  // Attributes
  // ---------------------------------------------------------------

  /** Absent attributes fall back to the defaults of a fresh node; resize-icon defaults to true. */
  lemma AttributeDefaults<I>(e: XNode, resolve: Resolver<I>)
    ensures !HasAttribute(e, "text") ==> ItemFor(e, resolve).text == ""
    ensures HasAttribute(e, "text") ==> ItemFor(e, resolve).text == e.attrs["text"]
    ensures !HasAttribute(e, "id") ==> ItemFor(e, resolve).id == None
    ensures HasAttribute(e, "id") ==> ItemFor(e, resolve).id == Some(e.attrs["id"])
    ensures !HasAttribute(e, "disabled") ==> !ItemFor(e, resolve).disabled
    ensures !HasAttribute(e, "icon") ==> ItemFor(e, resolve).graphic == None
    ensures HasAttribute(e, "icon") && !HasAttribute(e, "resize-icon") ==>
      var l := RewriteLocation(e.attrs["icon"]);
      ItemFor(e, resolve).graphic == resolve(l.local, l.path, true)
  {
  }

  /** Items and menus read their attributes identically. */
  lemma ItemAndMenuAgree<I>(e: XNode, resolve: Resolver<I>)
    ensures var item, menu := ItemFor(e, resolve), MenuFor(e, resolve);
      item.text == menu.text && item.id == menu.id && item.disabled == menu.disabled && item.graphic == menu.graphic
  {
  }

  // ---------------------------------------------------------------
  // Children: dispatch, order and skipping
  // ---------------------------------------------------------------

  /** The three name tests are exclusive: a child adds exactly one entry, of the kind its name says. */
  lemma EntryMatchesName<I>(c: XNode, resolve: Resolver<I>)
    requires IsEntryName(c.name)
    ensures EntryFor(c, resolve).Menu? <==> c.name == MenuName
    ensures EntryFor(c, resolve).Item? <==> c.name == ItemName
    ensures EntryFor(c, resolve).Separator? <==> c.name == SeparatorName
  {
  }

  /**
   * Document order: the k-th entry built from the first n children comes from
   * the k-th of those children that has an entry name, and there are exactly
   * as many entries as such children.
   */
  lemma {:induction false} EntriesFollowChildren<I>(e: XNode, n: nat, resolve: Resolver<I>)
    requires n <= |e.children|
    ensures |EntriesFor(e, n, resolve)| == |EntryChildren(e.children[..n])|
    ensures forall k :: 0 <= k < |EntriesFor(e, n, resolve)| ==>
      EntriesFor(e, n, resolve)[k] == EntryFor(EntryChildren(e.children[..n])[k], resolve)
  {
    if n > 0 {
      EntriesFollowChildren(e, n - 1, resolve);
      assert e.children[..n][..n - 1] == e.children[..n - 1];
    }
  }

  /** The filter works child by child: filtering a concatenation concatenates the filtered parts, so order is kept. */
  lemma {:induction false} EntryChildrenAppend(a: seq<XNode>, b: seq<XNode>)
    ensures EntryChildren(a + b) == EntryChildren(a) + EntryChildren(b)
  {
    if b == [] {
      assert a + b == a;
    } else {
      var b' := b[..|b| - 1];
      EntryChildrenAppend(a, b');
      assert (a + b)[..|a + b| - 1] == a + b';
    }
  }

  /** Every entry-named child is kept, as often as it occurs, and nothing else is. */
  lemma {:induction false} EntryChildrenCounts(cs: seq<XNode>)
    ensures forall c :: multiset(EntryChildren(cs))[c] == if IsEntryName(c.name) then multiset(cs)[c] else 0
  {
    if cs != [] {
      var init := cs[..|cs| - 1];
      EntryChildrenCounts(init);
      assert cs == init + [cs[|cs| - 1]];
    }
  }

  /** Children that all have entry names are all kept. */
  lemma {:induction false} EntryChildrenKeepsEntries(cs: seq<XNode>)
    requires forall k :: 0 <= k < |cs| ==> IsEntryName(cs[k].name)
    ensures EntryChildren(cs) == cs
  {
    if cs != [] {
      EntryChildrenKeepsEntries(cs[..|cs| - 1]);
    }
  }

  /** The entries of a node depend on its entry-named children only. */
  lemma SameEntryChildrenSameEntries<I>(e: XNode, f: XNode, resolve: Resolver<I>)
    requires EntryChildren(e.children) == EntryChildren(f.children)
    ensures EntriesFor(e, |e.children|, resolve) == EntriesFor(f, |f.children|, resolve)
  {
    var ks := EntryChildren(e.children);
    var a, b := EntriesFor(e, |e.children|, resolve), EntriesFor(f, |f.children|, resolve);
    EntriesFollowChildren(e, |e.children|, resolve);
    EntriesFollowChildren(f, |f.children|, resolve);
    assert e.children[..|e.children|] == e.children;
    assert f.children[..|f.children|] == f.children;
    assert |a| == |ks| == |b|;
    assert forall k :: 0 <= k < |a| ==> a[k] == EntryFor(ks[k], resolve) == b[k];
  }

  /** Skipped children (unknown tags, text, comments) add nothing: dropping them changes no menu. */
  lemma UnknownChildrenIgnored<I>(e: XNode, resolve: Resolver<I>)
    ensures MenuFor(e.(children := EntryChildren(e.children)), resolve) == MenuFor(e, resolve)
  {
    var f := e.(children := EntryChildren(e.children));
    EntryChildrenKeepsEntries(EntryChildren(e.children));
    SameEntryChildrenSameEntries(e, f, resolve);
  }

  // ---------------------------------------------------------------
  // Menu bars
  // ---------------------------------------------------------------

  /** A menu bar holds one Menu per "menu" child, in document order. */
  lemma {:induction false} BarMenusFollowChildren<I>(e: XNode, n: nat, resolve: Resolver<I>)
    requires n <= |e.children|
    ensures |BarMenusFor(e, n, resolve)| == |MenuChildren(e.children[..n])|
    ensures forall k :: 0 <= k < |BarMenusFor(e, n, resolve)| ==>
      BarMenusFor(e, n, resolve)[k] == MenuFor(MenuChildren(e.children[..n])[k], resolve)
      && BarMenusFor(e, n, resolve)[k].Menu?
  {
    if n > 0 {
      BarMenusFollowChildren(e, n - 1, resolve);
      assert e.children[..n][..n - 1] == e.children[..n - 1];
    }
  }

  /** Every "menu" child is kept, as often as it occurs, and nothing else is. */
  lemma {:induction false} MenuChildrenCounts(cs: seq<XNode>)
    ensures forall c :: multiset(MenuChildren(cs))[c] == if c.name == MenuName then multiset(cs)[c] else 0
  {
    if cs != [] {
      var init := cs[..|cs| - 1];
      MenuChildrenCounts(init);
      assert cs == init + [cs[|cs| - 1]];
    }
  }

  /** Every Menu entry is kept, as often as it occurs, and nothing else is. */
  lemma {:induction false} MenusOnlyCounts<I>(s: seq<MenuItem<I>>)
    ensures forall k :: 0 <= k < |s| ==> multiset(MenusOnly(s))[s[k]] == if s[k].Menu? then multiset(s)[s[k]] else 0
  {
    if s != [] {
      var init, last := s[..|s| - 1], s[|s| - 1];
      var r' := MenusOnly(init);
      MenusOnlyCounts(init);
      assert s == init + [last];
      assert last !in init ==> multiset(r')[last] == 0 by {
        if multiset(r')[last] > 0 { assert last in r'; }
      }
      assert forall k :: 0 <= k < |s| - 1 ==> s[k] == init[k];
    }
  }

  /** A menu bar keeps exactly the Menu entries a context menu would build from the same children: items and separators are dropped. */
  lemma {:induction false} BarKeepsOnlyMenus<I>(e: XNode, n: nat, resolve: Resolver<I>)
    requires n <= |e.children|
    ensures BarMenusFor(e, n, resolve) == MenusOnly(EntriesFor(e, n, resolve))
  {
    if n > 0 {
      BarKeepsOnlyMenus(e, n - 1, resolve);
      var c := e.children[n - 1];
      var before := EntriesFor(e, n - 1, resolve);
      if IsEntryName(c.name) {
        var s := before + [EntryFor(c, resolve)];
        assert s[..|s| - 1] == before;
      } else {
        assert EntriesFor(e, n, resolve) == before;
      }
    }
  }

  // ---------------------------------------------------------------
  // Entry points
  // ---------------------------------------------------------------

  /** A root of the wrong name gives an empty container of the requested kind. */
  lemma WrongRootGivesEmpty<I>(document: Document, resolve: Resolver<I>)
    ensures document.documentElement.name != MenuRootName ==>
      LoadedMenu(document, resolve) == Menu("", None, false, None, [])
    ensures document.documentElement.name != ContextRootName ==> LoadedContextMenu(document, resolve).items == []
    ensures document.documentElement.name != BarRootName ==> LoadedMenuBar(document, resolve).menus == []
  {
  }

  /**
   * load builds its Menu from the "menu-root" element itself: the Menu shows
   * the root's own text attribute and its items are the entries of the root's
   * children, in document order.
   */
  lemma LoadBuildsRootMenu<I>(document: Document, resolve: Resolver<I>)
    requires document.documentElement.name == MenuRootName
    ensures var root, m := document.documentElement, LoadedMenu(document, resolve);
      m.Menu? && m.text == GetAttribute(root, "text") && m.id == IdOf(root)
      && |m.items| == |EntryChildren(root.children)|
      && forall k :: 0 <= k < |m.items| ==> m.items[k] == EntryFor(EntryChildren(root.children)[k], resolve)
  {
    var root := document.documentElement;
    EntriesFollowChildren(root, |root.children|, resolve);
    assert root.children[..|root.children|] == root.children;
  }

  /** loadContextMenu builds one entry per entry-named child of the "menu-context" root, in document order. */
  lemma ContextMenuFollowsChildren<I>(document: Document, resolve: Resolver<I>)
    requires document.documentElement.name == ContextRootName
    ensures var root, items := document.documentElement, LoadedContextMenu(document, resolve).items;
      |items| == |EntryChildren(root.children)|
      && forall k :: 0 <= k < |items| ==> items[k] == EntryFor(EntryChildren(root.children)[k], resolve)
  {
    var root := document.documentElement;
    EntriesFollowChildren(root, |root.children|, resolve);
    assert root.children[..|root.children|] == root.children;
  }

  /** loadMenuBar builds one Menu per "menu" child of the "menu-bar" root, in document order. */
  lemma MenuBarFollowsChildren<I>(document: Document, resolve: Resolver<I>)
    requires document.documentElement.name == BarRootName
    ensures var root, menus := document.documentElement, LoadedMenuBar(document, resolve).menus;
      |menus| == |MenuChildren(root.children)|
      && forall k :: 0 <= k < |menus| ==> menus[k] == MenuFor(MenuChildren(root.children)[k], resolve) && menus[k].Menu?
  {
    var root := document.documentElement;
    BarMenusFollowChildren(root, |root.children|, resolve);
    assert root.children[..|root.children|] == root.children;
  }

  /**
   * A nested document, with a whitespace text node and an unknown element in
   * the "File" menu. load gives a Menu for the root (no text) whose one item
   * is the "File" menu.
   */
  lemma NestedMenusExample<I>(resolve: Resolver<I>)
    ensures
      var a := XNode(ItemName, map["text" := "A"], []);
      var recent := XNode(MenuName, map["text" := "Recent"], [a]);
      var space := XNode("#text", map[], []);
      var unknown := XNode("unknown", map["text" := "X"], []);
      var exit := XNode(ItemName, map["text" := "Exit"], []);
      var file := XNode(MenuName, map["text" := "File"],
                        [space, recent, XNode(SeparatorName, map[], []), unknown, exit]);
      LoadedMenu(Document(XNode(MenuRootName, map[], [file])), resolve)
      == Menu("", None, false, None, [
           Menu("File", None, false, None, [
             Menu("Recent", None, false, None, [Item("A", None, false, None)]),
             Separator,
             Item("Exit", None, false, None)])])
  {
    var a := XNode(ItemName, map["text" := "A"], []);
    var recent := XNode(MenuName, map["text" := "Recent"], [a]);
    var space := XNode("#text", map[], []);
    var sep := XNode(SeparatorName, map[], []);
    var unknown := XNode("unknown", map["text" := "X"], []);
    var exit := XNode(ItemName, map["text" := "Exit"], []);
    var file := XNode(MenuName, map["text" := "File"], [space, recent, sep, unknown, exit]);
    var root := XNode(MenuRootName, map[], [file]);
    var itemA, itemExit := Item("A", None, false, None), Item("Exit", None, false, None);
    assert ItemFor(a, resolve) == itemA;
    assert ItemFor(exit, resolve) == itemExit;
    assert EntriesFor(recent, 1, resolve) == [itemA];
    var menuRecent := Menu("Recent", None, false, None, [itemA]);
    assert MenuFor(recent, resolve) == menuRecent;
    assert EntriesFor(file, 1, resolve) == [];
    assert EntriesFor(file, 2, resolve) == [menuRecent];
    assert EntriesFor(file, 3, resolve) == [menuRecent, Separator];
    assert EntriesFor(file, 4, resolve) == [menuRecent, Separator];
    assert EntriesFor(file, 5, resolve) == [menuRecent, Separator, itemExit];
    var menuFile := Menu("File", None, false, None, [menuRecent, Separator, itemExit]);
    assert MenuFor(file, resolve) == menuFile;
    assert EntriesFor(root, 1, resolve) == [menuFile];
  }
}
