# Device and tool menu registry of the OLS client main window

The logic-analyzer client's main window (`MainFrame`) keeps two menus that change
at run time as devices and analysis tools register and unregister:

- the **device menu**: radio-button items kept in alphabetical order, with a
  disabled "No Devices." placeholder while there are none, and a button group
  that selects at most one device;
- the **tools menu**: plain items in registration order, with a disabled
  "No Tools." placeholder while there are none.

This project models both menus as pure Dafny functions and proves the properties
the window relies on:

- the placeholder is shown exactly when a menu has no entries;
- the device menu stays sorted under Java's `String.compareTo`, and a name that
  ties with existing entries goes after them;
- a device is selected when it becomes the only item, later adds do not move the
  selection, and removal never selects another device;
- removal deletes the first entry with the name and ignores unknown names;
- tools stay in registration order;
- an add followed by a remove restores the menu.

Modules:

- `Wrappers` (`wrappers.dfy`): `Option`.
- `JavaString` (`java_string.dfy`): `String.compareTo` and the order it induces.
  The proofs show this order is irreflexive, transitive and total.
- `Menus` (`menus.dfy`): what both menus share. This is the menu value, the
  removal by name with placeholder refill, and the scan for the first item with a
  given name.
- `DeviceMenu` (`device_menu.dfy`): insertion point, add, remove, the selection,
  and the ordering and round-trip lemmas.
- `ToolMenu` (`tool_menu.dfy`): append, remove, round trip.
- `MainFrame` (`main_frame.dfy`): the window's initial state, registration calls
  as events, and lemmas about every sequence of calls.

Modelling choices:

- The placeholder is a flag next to the list of entries, not an element of it.
  Nothing in the registry observes its position. An add removes it before any
  comparison. A removal by name never matches it, because it has no component
  name. The refill after a removal only counts items.
- The selection is a position in the entry list, not a name. The button group
  follows the item itself, so with duplicate names a name would not identify it.
  Insertions and deletions before the selected item shift the position.
- Item texts are taken to equal the names the items are created with
  (`client/src/main/java/nl/lxtreme/ols/client/MainFrame.java:324` and 411).

Behaviours of the code that the model keeps as they are:

- A duplicate registration is not refused. The second device of the same name is
  inserted after the first (`MainFrame.DuplicateDeviceIsKept`).
- Unregistering an unknown name is a silent no-op (`MainFrame.UnknownNameIsIgnored`).
- A device is selected whenever the add leaves it the only menu item
  (`client/src/main/java/nl/lxtreme/ols/client/MainFrame.java:449`). The comment
  above that line speaks of the first added device, but a device added after the
  menu was emptied again is selected too.
- Unregistering a device other than the selected one keeps the selection
  (`MainFrame.UnregisterOtherKeepsSelection`).

`DeviceMenu.AddThenRemoveDevice` proves the add/remove round trip for every
well-formed sorted menu, one whose placeholder is shown exactly when it has no
entries and whose selection points at an entry. It proves that the selection comes back too for every name that was
not already in the menu. Every menu reachable from the initial one is sorted
(`MainFrame.ReplayKeepsInvariant`). Neither of these two conditions can simply be
dropped:

- `DeviceMenu.RoundTripNeedsSortedMenu` gives an unsorted menu where the entries
  do not come back.
- `DeviceMenu.DuplicateRoundTripDropsSelection` gives a duplicate name where the
  selection does not come back.

Neither condition is necessary either. `DeviceMenu.UnsortedRoundTripCanHold`
and `DeviceMenu.DuplicateRoundTripKeepsOtherSelection` give cases outside them
where the round trip still holds.

## Model

| member | source | states |
|---|---|---|
| `JavaString.CompareTo` | client/src/main/java/nl/lxtreme/ols/client/MainFrame.java:429-431 | the `compareTo` used to order devices answers zero exactly for equal texts |
| `JavaString.CompareToAntisymmetric` | client/src/main/java/nl/lxtreme/ols/client/MainFrame.java:429-431 | swapping the operands of `compareTo` negates the result |
| `JavaString.LessTransitive` | client/src/main/java/nl/lxtreme/ols/client/MainFrame.java:429-431 | "sorts strictly before" is transitive |
| `JavaString.LessTotal` | client/src/main/java/nl/lxtreme/ols/client/MainFrame.java:429-431 | two texts neither of which sorts before the other are equal |
| `JavaString.PrefixSortsFirst` | client/src/main/java/nl/lxtreme/ols/client/MainFrame.java:429-431 | a proper prefix sorts before the longer text |
| `Menus.FirstIndexOf` | client/src/main/java/nl/lxtreme/ols/client/MainFrame.java:164-173 | the result is the position of the first entry with the name, with no earlier match; no result exactly when the name is absent |
| `Menus.FindMenuItem` | client/src/main/java/nl/lxtreme/ols/client/MainFrame.java:189-198 | the scan that stops at the first item whose name matches finds the first match |
| `Menus.WithoutFirst` | client/src/main/java/nl/lxtreme/ols/client/MainFrame.java:175-179 | removal drops one copy of the name and nothing else (multiset), and leaves the list unchanged when the name is absent |
| `Menus.WithoutFirstDeletesFirstMatch` | client/src/main/java/nl/lxtreme/ols/client/MainFrame.java:164-179 | removal deletes exactly the first entry with the name and keeps the others in order |
| `Menus.WithoutFirstIsDeleteFirst` | client/src/main/java/nl/lxtreme/ols/client/MainFrame.java:189-203 | removal agrees with an independent recursive "delete first occurrence" on every list |
| `Menus.RemoveEntry` | client/src/main/java/nl/lxtreme/ols/client/MainFrame.java:162-182 | a removal never leaves a menu without items, keeps "placeholder iff no entries", and is a no-op for an unknown name |
| `Menus.RestorePlaceholder` | client/src/main/java/nl/lxtreme/ols/client/MainFrame.java:454-461 | the placeholder is shown afterwards exactly when it was shown before or no entry is left; the tools menu refills the same way at lines 476-480 |
| `Menus.PlaceholderNeverRemoved` | client/src/main/java/nl/lxtreme/ols/client/MainFrame.java:55-56 | the placeholder has no name: removing its caption text from a placeholder-only menu changes nothing |
| `DeviceMenu.Init` | client/src/main/java/nl/lxtreme/ols/client/MainFrame.java:55-72 | the device menu starts with the "No Devices." placeholder as its only item and no selection |
| `DeviceMenu.InsertionIndex` | client/src/main/java/nl/lxtreme/ols/client/MainFrame.java:424-437 | the insertion index holds the first text the new one sorts strictly before, every earlier text does not, and -1 means none does |
| `DeviceMenu.DetermineDeviceMenuItemIndex` | client/src/main/java/nl/lxtreme/ols/client/MainFrame.java:424-437 | the loop that stops once an index is found computes that insertion index |
| `DeviceMenu.AddPosition` | client/src/main/java/nl/lxtreme/ols/client/MainFrame.java:97-100 | the new item lands where every earlier entry does not sort after it and the entry at that place does; -1 from the scan means after the last entry |
| `DeviceMenu.ShiftForInsert` | client/src/main/java/nl/lxtreme/ols/client/MainFrame.java:99-100 | inserting an item keeps an existing selection and never moves it onto the new item |
| `DeviceMenu.ShiftForInsertFollowsItem` | client/src/main/java/nl/lxtreme/ols/client/MainFrame.java:99-100 | after the insertion the selection still points at the item that was selected |
| `DeviceMenu.ShiftForRemove` | client/src/main/java/nl/lxtreme/ols/client/MainFrame.java:177 | removing an item from the button group clears the selection exactly when that item was the selected one |
| `DeviceMenu.ShiftForRemoveFollowsItem` | client/src/main/java/nl/lxtreme/ols/client/MainFrame.java:177-178 | after another item is deleted the selection still points at the item that was selected |
| `DeviceMenu.AddDevice` | client/src/main/java/nl/lxtreme/ols/client/MainFrame.java:89-103 | after an add the placeholder is gone and the entries gain one copy of the name. A device that is the only item is selected. Otherwise the selected name stays the same |
| `DeviceMenu.AddDeviceKeepsSelectedItem` | client/src/main/java/nl/lxtreme/ols/client/MainFrame.java:99-100 | when the add leaves more than one item, the button group keeps the very item it had selected: the same position before the insertion point, one further down from it on |
| `DeviceMenu.RemoveDevice` | client/src/main/java/nl/lxtreme/ols/client/MainFrame.java:162-182 | removal never selects a device that was not selected. The selection is cleared exactly when the removed item is the selected one. Otherwise the group keeps the very item it had selected: the same position before the removed one, one further up after it. An unknown name keeps the selection |
| `DeviceMenu.AddDeviceKeepsSorted` | client/src/main/java/nl/lxtreme/ols/client/MainFrame.java:94-100 | adding to a sorted device menu leaves it sorted |
| `DeviceMenu.AddDeviceInsertsAfterEquals` | client/src/main/java/nl/lxtreme/ols/client/MainFrame.java:427-434 | in a sorted menu the new device goes after every entry not greater than it, equal names included, and before every greater one |
| `DeviceMenu.RemoveDeviceKeepsSorted` | client/src/main/java/nl/lxtreme/ols/client/MainFrame.java:175-179 | removing from a sorted device menu leaves it sorted |
| `DeviceMenu.DeviceOperationsKeepWf` | client/src/main/java/nl/lxtreme/ols/client/MainFrame.java:444-461 | add and remove keep "placeholder iff no entries" and keep the selection on a real entry |
| `DeviceMenu.AddThenRemoveDevice` | client/src/main/java/nl/lxtreme/ols/client/MainFrame.java:162-182 | in a consistent sorted menu, add then remove of a name restores the menu, and with a new name the selection too |
| `DeviceMenu.RoundTripNeedsSortedMenu` | client/src/main/java/nl/lxtreme/ols/client/MainFrame.java:164-173 | in the unsorted menu ["b", "a"], adding and removing "b" gives ["a", "b"]: removal takes the earlier "b" |
| `DeviceMenu.DuplicateRoundTripDropsSelection` | client/src/main/java/nl/lxtreme/ols/client/MainFrame.java:175-179 | adding and removing a second "A" when the first is selected leaves no selection, since the selected item is the one removed |
| `DeviceMenu.DuplicateRoundTripKeepsOtherSelection` | client/src/main/java/nl/lxtreme/ols/client/MainFrame.java:164-179 | in ["A", "B"] with "B" selected, adding and removing "A" restores the whole state, duplicate name notwithstanding |
| `DeviceMenu.UnsortedRoundTripCanHold` | client/src/main/java/nl/lxtreme/ols/client/MainFrame.java:427-436 | in the unsorted ["b", "a"], adding and removing "c" restores the menu: "c" is appended and is the only "c" |
| `DeviceMenu.FirstDeviceIsSelected` | client/src/main/java/nl/lxtreme/ols/client/MainFrame.java:446-452 | the first device added to the fresh menu is its only entry and is selected, whatever its name |
| `ToolMenu.Init` | client/src/main/java/nl/lxtreme/ols/client/MainFrame.java:58-73 | the tools menu starts with the "No Tools." placeholder as its only item |
| `ToolMenu.AddTool` | client/src/main/java/nl/lxtreme/ols/client/MainFrame.java:110-120 | after an add the placeholder is gone and the tool is last, after all earlier tools, whatever the names |
| `ToolMenu.RemoveTool` | client/src/main/java/nl/lxtreme/ols/client/MainFrame.java:187-206 | tool removal is "delete the first occurrence", refills the placeholder when emptied, and ignores unknown names |
| `ToolMenu.AddThenRemoveTool` | client/src/main/java/nl/lxtreme/ols/client/MainFrame.java:187-206 | add then remove of a new tool name restores the tools menu |
| `MainFrame.Init` | client/src/main/java/nl/lxtreme/ols/client/MainFrame.java:49-73 | the constructor leaves each menu holding only its placeholder and no device selected |
| `MainFrame.Apply` | client/src/main/java/nl/lxtreme/ols/client/MainFrame.java:89-120 | device calls leave the tools menu untouched and tool calls leave the device menu untouched |
| `MainFrame.ReplayKeepsInvariant` | client/src/main/java/nl/lxtreme/ols/client/MainFrame.java:444-485 | after any sequence of calls: placeholder iff no entries in both menus, devices sorted, selection on a real device |
| `MainFrame.ToolsFollowRegistrationOrder` | client/src/main/java/nl/lxtreme/ols/client/MainFrame.java:110-120 | after any sequence of calls the tools menu lists the tools in registration order, minus those unregistered |
| `MainFrame.DevicesAreTheRegisteredOnes` | client/src/main/java/nl/lxtreme/ols/client/MainFrame.java:89-103 | after any sequence of calls the device menu holds exactly the registered, not yet unregistered names, duplicates counted |
| `MainFrame.UnknownNameIsIgnored` | client/src/main/java/nl/lxtreme/ols/client/MainFrame.java:175-181 | unregistering an absent name leaves the whole window unchanged |
| `MainFrame.RegisterThenUnregisterDevice` | client/src/main/java/nl/lxtreme/ols/client/MainFrame.java:89-103 | registering then unregistering a device in the fresh window gives the fresh window back |
| `MainFrame.RegisterThenUnregisterTool` | client/src/main/java/nl/lxtreme/ols/client/MainFrame.java:110-120 | registering then unregistering a tool in the fresh window gives the fresh window back |
| `MainFrame.ZetaThenAlphaDevices` | client/src/main/java/nl/lxtreme/ols/client/MainFrame.java:97-102 | registering "Zeta" then "Alpha" lists devices ["Alpha", "Zeta"], with "Zeta" still selected |
| `MainFrame.ZetaThenAlphaTools` | client/src/main/java/nl/lxtreme/ols/client/MainFrame.java:113-117 | registering "Zeta" then "Alpha" lists tools ["Zeta", "Alpha"]: no sorting |
| `MainFrame.DuplicateDeviceIsKept` | client/src/main/java/nl/lxtreme/ols/client/MainFrame.java:89-103 | registering "X" twice gives two "X" devices; no duplicate is refused |
| `MainFrame.UnregisterOtherKeepsSelection` | client/src/main/java/nl/lxtreme/ols/client/MainFrame.java:162-182 | registering "B" then "A" and unregistering "A" leaves ["B"] with "B" still selected |

## Left out

- Window construction and layout are left out as toolkit plumbing with no logic. This covers `createMenuBars`, the toolbar, the window menu, the content pane, and `revalidate`/`repaint`.
- The diagram forwards are left out because they only forward to a collaborator outside this model. These are `convertMousePositionToSampleIndex`, `getDiagramSettings`, `getZoomScale`, `gotoPosition`, the zoom methods and `updatePreferredSize`. The zoom scale is also floating point.
- `setStatus`, `setProgress` and `updateProgress` are left out because they forward to the status bar. The message formatting is done by `java.text.MessageFormat`, which is not part of this model. The one branch of its own passes the message through unchanged when there are no arguments.
- `showAboutBox` is left out because it only does dialog and icon I/O.
- The `SaveProjectAsAction` file is left out: it is a constructor plus an override that always returns `true`.
- Picking a device by hand in the menu is left out. `SelectDeviceAction` is not part of this model. Selection changes only through the add and remove calls.
- The button group's internals are reduced to the position of the selected item.
- `JavaString.CompareTo` compares Dafny characters, which are Unicode scalar values. Java compares UTF-16 code units. The two orders differ only when a name contains characters outside the Basic Multilingual Plane.
- `null` names are outside the model, because names are Dafny strings. Within `MainFrame` a `null` name is dereferenced only in three places: the `equals` calls of the two removals (`client/src/main/java/nl/lxtreme/ols/client/MainFrame.java:168` and 193), and `compareTo` at line 430 when the device menu already has entries. `addToolMenuItem(null)`, and `addDeviceMenuItem(null)` on an empty device menu, do not dereference it there. What the action constructors do with it is not part of this model.
- The invocation of the `SelectDeviceAction` and `RunAnalysisToolAction` actions is left out. So is their effect on the controller.
- `DeviceMenu.AddDevice`: its own contract keeps only the selected name. That the selection stays on the very same item, which matters when names repeat, is stated by the separate lemma `DeviceMenu.AddDeviceKeepsSelectedItem`. Putting that clause into the contract made every proof that unfolds an add too costly.
