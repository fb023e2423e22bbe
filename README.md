# MenuLoader: XML menus for JavaFX, modelled in Dafny

`MenuLoader` (JavaFX-Controls) turns an already-parsed XML DOM document into a JavaFX menu.

It has three entry points:

- `load` expects a `menu-root` root and returns a `Menu`.
- `loadContextMenu` expects a `menu-context` root and returns a `ContextMenu`.
- `loadMenuBar` expects a `menu-bar` root and returns a `MenuBar`.

A root of any other name gives an empty container. Otherwise the loader walks the child nodes in document order:

- `menu` becomes a `Menu` and the loader recurses into it.
- `item` becomes a `MenuItem`.
- `separator` becomes a `SeparatorMenuItem`.
- Every other node is skipped: unknown tags, `#text`, `#comment`.

A menu bar takes only its `menu` children. On an item or menu, the attributes are used as follows:

- `text` is the label, and "" when absent.
- `id` is set only when present.
- `disabled` and `resize-icon` go through `parseText`: trimmed text equal to "true" up to case. `resize-icon` defaults to true.
- `icon` is a location. A leading `@` names a bundled resource and is stripped; otherwise every space becomes `%20`. If the lookup throws (a missing bundled resource, a malformed URI or URL, a stream that cannot be opened), the node gets no graphic but is built otherwise unchanged.

`load` builds its `Menu` from the root element itself (`createMenu(root)`, MenuLoader.java:73). The result is a `Menu` labelled with the root's own `text` attribute, with the root's children as its items. So for `<menu-root><menu text="File">…</menu></menu-root>` the result is an unlabelled `Menu` whose single item is the "File" menu, not the "File" menu itself. The model follows the code (`MenuFacts.NestedMenusExample`).

## Layout

- `wrappers.dfy`: `Option`.
- `dom.dfy`: the input tree `XNode(name, attrs, children)`, `Document`, `hasAttribute` and `getAttribute` (absent attribute gives "").
- `java_text.dfy`: the `String` operations the loader uses: `trim` (strips characters up to U+0020), `equalsIgnoreCase`, `startsWith`, `replace`. It also holds their facts and the `%20` decoder used for the round trip.
- `controls.dfy`: the JavaFX results as values. `MenuItem<I> = Item | Separator | Menu`, plus `ContextMenu` and `MenuBar`. `I` is the image-view type.
- `menu_model.dfy`: the builder as pure functions of the document. These are the specification: `ParseText`, `RewriteLocation`, `LoadImageView`, the attribute readers, `ItemFor`, `MenuFor`, `EntriesFor`, `BarMenusFor`, `LoadedMenu`, `LoadedContextMenu` and `LoadedMenuBar`.
- `menu_loader.dfy`: the loader as the source writes it. Indexed loops append each built entry to the container. Node builders start from fresh defaults and apply each attribute as one guarded assignment. Each method is proved equal to its specification function.
- `menu_facts.dfy`: lemmas about the specification.

Image loading is a parameter `resolve: (local, path, resize) -> Option<I>`. It stands for the class-loader lookup, URI/URL construction, stream opening and image decoding. `None` is an exception that `loadImageView` catches.

## Model

| member | source | states |
|---|---|---|
| MenuLoader.Load | src/main/java/com/github/ushiosan23/javafx/xml/MenuLoader.java:67-74 | returns exactly `LoadedMenu`: an empty Menu unless the root is `menu-root`, else the Menu built from the root element itself |
| MenuLoader.LoadContextMenu | src/main/java/com/github/ushiosan23/javafx/xml/MenuLoader.java:82-99 | the indexed loop, which appends an entry per recognised child, builds exactly `LoadedContextMenu`; loop invariant: the items so far are the entries of the children seen so far |
| MenuLoader.LoadMenuBar | src/main/java/com/github/ushiosan23/javafx/xml/MenuLoader.java:107-122 | the loop that appends one Menu per `menu` child builds exactly `LoadedMenuBar` |
| MenuLoader.CreateItem | src/main/java/com/github/ushiosan23/javafx/xml/MenuLoader.java:136-154 | the guarded setter sequence, with a local resizeIcon, yields exactly `ItemFor`: text label, id only if present, disabled only if present and true, graphic only if the icon loaded |
| MenuLoader.CreateMenu | src/main/java/com/github/ushiosan23/javafx/xml/MenuLoader.java:162-190 | the same attribute handling plus the recursive child loop yields exactly `MenuFor`; the loop invariant ties the items so far to `EntriesFor` of the prefix |
| JavaText.TrimStart | src/main/java/com/github/ushiosan23/javafx/xml/MenuLoader.java:199 | the first kept index of `trim`: everything before it is at most U+0020, the character at it is not |
| JavaText.TrimEnd | src/main/java/com/github/ushiosan23/javafx/xml/MenuLoader.java:199 | the end of what `trim` keeps: everything after it is blank, the character before it (if any kept) is not |
| JavaText.TrimPadded | src/main/java/com/github/ushiosan23/javafx/xml/MenuLoader.java:199 | `trim` of blank padding around a core without blank ends is exactly that core |
| JavaText.ReplaceChar | src/main/java/com/github/ushiosan23/javafx/xml/MenuLoader.java:220 | `replace` of one character puts every character of the input at its shifted index: a target becomes the whole replacement there, any other character stays itself; the length grows by (replacement length - 1) per occurrence; no target is left when the replacement lacks it; no occurrence means no change |
| JavaText.UnescapeEscapedSpaces | src/main/java/com/github/ushiosan23/javafx/xml/MenuLoader.java:220 | decoding `%20` after escaping spaces gives back any text without `%` |
| MenuModel.RewriteLocation | src/main/java/com/github/ushiosan23/javafx/xml/MenuLoader.java:215-221 | local iff the location starts with `@`; a local path is the location minus that `@`; a non-local path has every space, and only the spaces, turned into `%20` at the shifted positions, with every other character kept in order; it has no space left and grows by two characters per space |
| MenuModel.EntryChildren | src/main/java/com/github/ushiosan23/javafx/xml/MenuLoader.java:184-186 | each child it keeps has the name menu, item or separator and comes from the input |
| MenuModel.MenuChildren | src/main/java/com/github/ushiosan23/javafx/xml/MenuLoader.java:118 | each child it keeps is named `menu` and comes from the input |
| MenuModel.MenusOnly | src/main/java/com/github/ushiosan23/javafx/xml/MenuLoader.java:118 | each entry it keeps is a Menu and comes from the input |
| MenuModel.ParseText | src/main/java/com/github/ushiosan23/javafx/xml/MenuLoader.java:198-200 | true exactly when the text is a case variant of "true" with only characters up to U+0020 around it, in both directions |
| JavaText.TrimEqualsIgnoreCase | src/main/java/com/github/ushiosan23/javafx/xml/MenuLoader.java:199 | for a word without blank ends, `trim()` of a text equals it up to case iff the text is a blank-padded case variant of it |
| JavaText.TrimmedIsPadded | src/main/java/com/github/ushiosan23/javafx/xml/MenuLoader.java:199 | a text whose trim equals a word up to case is that word's case variant with only blanks around it |
| JavaText.PaddedTrims | src/main/java/com/github/ushiosan23/javafx/xml/MenuLoader.java:199 | a case variant of a word without blank ends, padded with blanks, trims to something equal to the word up to case |
| JavaText.PaddedIsTrimmed | src/main/java/com/github/ushiosan23/javafx/xml/MenuLoader.java:199 | a blank-padded case variant of a word without blank ends trims to something equal to the word up to case |
| MenuModel.LoadImageView | src/main/java/com/github/ushiosan23/javafx/xml/MenuLoader.java:210-238 | a location starting with `@` asks the resolver for the bundled resource named by the rest; any other asks for the external location with spaces escaped; the resize flag is passed through, and the resolver's failure is the result |
| MenuFacts.RewriteLocationExamples | src/main/java/com/github/ushiosan23/javafx/xml/MenuLoader.java:215-221 | "@icons/open file.png" is the bundled path "icons/open file.png", spaces kept; "a b%" is the external path "a%20b%" |
| MenuFacts.ParseTextAcceptsExamples | src/main/java/com/github/ushiosan23/javafx/xml/MenuLoader.java:198-200 | "true" and "TRUE" parse as true |
| MenuFacts.ParseTextAcceptsPaddedExample | src/main/java/com/github/ushiosan23/javafx/xml/MenuLoader.java:198-200 | " TRUE " parses as true |
| MenuFacts.ParseTextRejectsExamples | src/main/java/com/github/ushiosan23/javafx/xml/MenuLoader.java:198-200 | "", "yes", "false", "t rue" parse as false |
| MenuFacts.RewrittenLocationDecodes | src/main/java/com/github/ushiosan23/javafx/xml/MenuLoader.java:219-220 | the escaped path of a non-bundled location decodes back to the location when it holds no `%` |
| MenuFacts.FailedIconKeepsNode | src/main/java/com/github/ushiosan23/javafx/xml/MenuLoader.java:148-151 | an icon lookup that throws leaves item and menu with no graphic and otherwise identical to the node without the icon attribute (label, id, disabled, children kept) |
| MenuFacts.AttributeDefaults | src/main/java/com/github/ushiosan23/javafx/xml/MenuLoader.java:138-151 | absent text gives "", absent id gives no id, absent disabled gives enabled, absent icon gives no graphic, absent resize-icon resolves the icon with resize true; present text and id are used verbatim |
| MenuFacts.ItemAndMenuAgree | src/main/java/com/github/ushiosan23/javafx/xml/MenuLoader.java:164-177 | createMenu reads text, id, disabled and icon exactly as createItem does |
| MenuFacts.EntryMatchesName | src/main/java/com/github/ushiosan23/javafx/xml/MenuLoader.java:184-186 | the three name tests are exclusive: a recognised child adds a Menu iff named menu, an Item iff named item, a Separator iff named separator |
| MenuFacts.EntriesFollowChildren | src/main/java/com/github/ushiosan23/javafx/xml/MenuLoader.java:179-187 | document order: the k-th entry comes from the k-th recognised child, and there are as many entries as recognised children |
| MenuFacts.EntryChildrenKeepsEntries | src/main/java/com/github/ushiosan23/javafx/xml/MenuLoader.java:184-186 | children that all have entry names are all kept, in order |
| MenuFacts.EntryChildrenCounts | src/main/java/com/github/ushiosan23/javafx/xml/MenuLoader.java:184-186 | every child named menu, item or separator is kept as often as it occurs, and no other child is kept |
| MenuFacts.EntryChildrenAppend | src/main/java/com/github/ushiosan23/javafx/xml/MenuLoader.java:179-187 | the children are filtered one by one in order: filtering a concatenation concatenates the filtered parts |
| MenuFacts.MenuChildrenCounts | src/main/java/com/github/ushiosan23/javafx/xml/MenuLoader.java:118 | every `menu` child is kept as often as it occurs, and no other child is kept |
| MenuFacts.MenusOnlyCounts | src/main/java/com/github/ushiosan23/javafx/xml/MenuLoader.java:118 | every Menu entry is kept as often as it occurs in the input; items and separators are not kept |
| MenuFacts.SameEntryChildrenSameEntries | src/main/java/com/github/ushiosan23/javafx/xml/MenuLoader.java:179-187 | two nodes with the same recognised children build the same entries |
| MenuFacts.UnknownChildrenIgnored | src/main/java/com/github/ushiosan23/javafx/xml/MenuLoader.java:184-186 | removing every unknown, text or comment child changes no menu |
| MenuFacts.BarMenusFollowChildren | src/main/java/com/github/ushiosan23/javafx/xml/MenuLoader.java:114-119 | a menu bar's k-th menu is built from the k-th `menu` child, every one is a Menu, and there are as many as `menu` children |
| MenuFacts.BarKeepsOnlyMenus | src/main/java/com/github/ushiosan23/javafx/xml/MenuLoader.java:114-119 | a menu bar's menus are exactly the Menu entries that the context-menu loop would build from the same children: top-level items and separators are dropped |
| MenuFacts.WrongRootGivesEmpty | src/main/java/com/github/ushiosan23/javafx/xml/MenuLoader.java:67-112 | a root not named `menu-root` / `menu-context` / `menu-bar` gives an empty Menu (no text, id or graphic, enabled) / ContextMenu / MenuBar |
| MenuFacts.LoadBuildsRootMenu | src/main/java/com/github/ushiosan23/javafx/xml/MenuLoader.java:73 | on a `menu-root`, load's Menu carries the root's own text and id, and its items are the entries of the root's recognised children in order |
| MenuFacts.ContextMenuFollowsChildren | src/main/java/com/github/ushiosan23/javafx/xml/MenuLoader.java:89-96 | on a `menu-context`, the k-th item comes from the k-th recognised child of the root, one per such child |
| MenuFacts.MenuBarFollowsChildren | src/main/java/com/github/ushiosan23/javafx/xml/MenuLoader.java:114-119 | on a `menu-bar`, the k-th menu is the Menu of the k-th `menu` child of the root, one per such child |
| MenuFacts.NestedMenusExample | src/main/java/com/github/ushiosan23/javafx/xml/MenuLoader.java:67-74 | a File/Recent/A, separator, Exit document, with a whitespace text node and an unknown element, loads as an unlabelled Menu holding "File" with exactly Recent(A), separator, Exit |

## Left out

- Image loading inside `loadImageView` is not modelled. This covers the system class-loader lookup, `URI`/`URL` construction, `openStream`, JavaFX `Image` decoding with 15x15 scaling, and `printStackTrace`. They are I/O and foreign library code, so the model takes them as the `resolve` parameter. Every exception they raise is `None`.
- XML parsing is not modelled. The loader receives an already-parsed tree.
- JavaFX nodes are values in the model. The objects' identity, aliasing and later attachment to a scene are not captured. The setter calls on a fresh node are local variables that are assembled into the value at the end.
- `equalsIgnoreCase` folds ASCII letters only. Java's Unicode case mapping of other characters is not part of this model.
- The `(Element)` cast is not modelled. A non-element node whose name is `menu`, `item` or `separator`, such as a processing instruction with that target, would make the cast in `createItem`/`createMenu` throw. The model treats every node by its name and attributes.
- Java strings are sequences of UTF-16 code units, while a Dafny `char` is a Unicode scalar value. The model treats a string as a sequence of characters and does not capture surrogate pairs: a lone surrogate has no `char`, and a character outside the Basic Multilingual Plane is one `char` but two Java `char`s.
- An image that cannot be decoded is not modelled. JavaFX's `Image` records a decoding error rather than throwing, so `loadImageView` still returns an image view and the node still gets a graphic. The model leaves that to the resolver, which may return `Some` for such an image.
- The rest of the repository is not part of this model. This covers notifications, popups, dialogs, the picture card, the tray icon, the image and screen utilities, and the build and test files. They are toolkit wiring with no logic of their own to state.
