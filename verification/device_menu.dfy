/** The device menu of the main window: radio-button entries kept in alphabetical
    order, a "No Devices." placeholder while there are none, and a button group
    that selects at most one of them. */
module DeviceMenu {
  import opened Wrappers
  import opened JavaString
  import opened Menus

  /** The placeholder's text. */
  const NoDevicesCaption: string := "No Devices."

  /** The menu together with its button group. `selected` is the position in
      `menu.entries` of the selected radio item; the group follows the item itself,
      so the position moves when items are inserted or deleted before it. */
  datatype Devices = Devices(menu: Menu, selected: Option<nat>)

  /** The device menu as the main window builds it: only the placeholder, nothing selected. */
  function Init(): (d: Devices)
    ensures d.menu.caption == NoDevicesCaption
    ensures d.menu.entries == [] && d.menu.placeholder && ItemCount(d.menu) == 1
    ensures d.selected == None
  {
    Devices(Empty(NoDevicesCaption), None)
  }

  /** The selection, if any, points at a real entry. */
  predicate SelectionValid(d: Devices)
  {
    d.selected.Some? ==> d.selected.value < |d.menu.entries|
  }

  predicate Wf(d: Devices)
  {
    PlaceholderExact(d.menu) && SelectionValid(d)
  }

  /** No entry sorts strictly before an entry shown above it. */
  predicate Sorted(s: seq<string>)
  {
    forall i, j :: 0 <= i < j < |s| ==> !Less(s[j], s[i])
  }

  /** The name of the selected device, if any. */
  function SelectedName(d: Devices): Option<string>
  {
    if d.selected.Some? && d.selected.value < |d.menu.entries| then Some(d.menu.entries[d.selected.value])
    else None
  }

  /** Where `determineDeviceMenuItemIndex` puts a new item with text `text`: the
      first position holding a text that `text` sorts strictly before, or -1
      (append) when there is none. */
  function InsertionIndex(s: seq<string>, text: string): (idx: int)
    ensures -1 <= idx < |s|
    ensures idx >= 0 ==> Less(text, s[idx])
    ensures forall j :: 0 <= j < |s| && (idx < 0 || j < idx) ==> !Less(text, s[j])
  {
    if |s| == 0 then -1
    else if Less(text, s[0]) then 0
    else
      var k := InsertionIndex(s[1..], text);
      if k < 0 then -1 else k + 1
  }

  /** The scan of `determineDeviceMenuItemIndex`, which stops at the first
      strictly greater text. */
  method DetermineDeviceMenuItemIndex(s: seq<string>, text: string) returns (idx: int)
    ensures idx == InsertionIndex(s, text)
  {
    idx := -1;
    var i := 0;
    while idx < 0 && i < |s|
      invariant 0 <= i <= |s|
      invariant idx < 0 ==> InsertionIndex(s, text) < 0 || i <= InsertionIndex(s, text)
      invariant idx >= 0 ==> idx == InsertionIndex(s, text)
    {
      if Less(text, s[i]) {
        idx := i;
      }
      i := i + 1;
    }
  }

  /** The position the new item lands at: `JMenu.add(item, -1)` appends. Every
      entry before it does not sort after the new name; the one at it does. */
  function AddPosition(s: seq<string>, name: string): (p: nat)
    ensures p <= |s|
    ensures forall j :: 0 <= j < p ==> !Less(name, s[j])
    ensures p < |s| ==> Less(name, s[p])
  {
    var idx := InsertionIndex(s, name);
    if idx < 0 then |s| else idx
  }

  /** The button group after an item is inserted at position `p`: the selection
      survives and never lands on the new item. */
  function ShiftForInsert(selected: Option<nat>, p: nat): (r: Option<nat>)
    ensures r.None? <==> selected.None?
    ensures r.Some? ==> r.value != p
  {
    match selected
    case None => None
    case Some(s) => if s >= p then Some(s + 1) else Some(s)
  }

  /** The button group after the item at position `k` is removed from it: the
      selection is cleared exactly when the removed item is the selected one. */
  function ShiftForRemove(selected: Option<nat>, k: nat): (r: Option<nat>)
    ensures r.None? <==> selected.None? || selected.value == k
  {
    match selected
    case None => None
    case Some(s) => if s == k then None else if s > k then Some(s - 1) else Some(s)
  }

  /** Deleting the item just inserted at `p` puts the selection back where it was. */
  lemma ShiftRoundTrip(selected: Option<nat>, p: nat)
    ensures ShiftForRemove(ShiftForInsert(selected, p), p) == selected
  {
  }

  /** After an insertion at `p` the shifted selection still points at the item
      that was selected. */
  lemma ShiftForInsertFollowsItem(s: seq<string>, name: string, sel: nat, p: nat)
    requires sel < |s| && p <= |s|
    ensures var r := ShiftForInsert(Some(sel), p);
            r.Some? && r.value <= |s| && (s[..p] + [name] + s[p..])[r.value] == s[sel]
  {
  }

  /** After the item at `k` is deleted, the shifted selection of any other item
      still points at that item. */
  lemma ShiftForRemoveFollowsItem(s: seq<string>, sel: nat, k: nat)
    requires sel < |s| && k < |s| && sel != k
    ensures var r := ShiftForRemove(Some(sel), k);
            r.Some? && r.value < |s| - 1 && (s[..k] + s[k + 1..])[r.value] == s[sel]
  {
  }

  /** Where everything is after `name` is inserted at `p`. */
  lemma InsertedAt(s: seq<string>, name: string, p: nat)
    requires p <= |s|
    ensures var t := s[..p] + [name] + s[p..];
            && |t| == |s| + 1 && t[p] == name
            && (forall i :: 0 <= i < p ==> t[i] == s[i])
            && (forall i :: p < i < |t| ==> t[i] == s[i - 1])
            && multiset(t) == multiset(s) + multiset{name}
  {
    assert s == s[..p] + s[p..];
  }

  /** `addDeviceMenuItem`: the placeholder goes, the new device is inserted before
      the first strictly greater name, and it is selected when it is the only item.
      Otherwise the selected device keeps its name; `AddDeviceKeepsSelectedItem`
      shows it is the very same item. */
  function AddDevice(d: Devices, name: string): (r: Devices)
    ensures r.menu.caption == d.menu.caption
    ensures !r.menu.placeholder && PlaceholderExact(r.menu)
    ensures multiset(r.menu.entries) == multiset(d.menu.entries) + multiset{name}
    ensures |d.menu.entries| == 0 ==> r.menu.entries == [name] && SelectedName(r) == Some(name)
    ensures SelectionValid(d) ==> SelectionValid(r)
    ensures |d.menu.entries| > 0 && SelectionValid(d) ==> SelectedName(r) == SelectedName(d)
  {
    var s := d.menu.entries;
    var p := AddPosition(s, name);
    InsertedAt(s, name, p);
    var menu := d.menu.(entries := s[..p] + [name] + s[p..], placeholder := false);
    var selected := if ItemCount(menu) == 1 then Some(p) else ShiftForInsert(d.selected, p);
    Devices(menu, selected)
  }

  /** An add that leaves more than one item does not touch the button group's
      selection: the selected item is the same one, one further down when it
      came at or after the insertion point. */
  lemma AddDeviceKeepsSelectedItem(d: Devices, name: string)
    requires |d.menu.entries| > 0 && d.selected.Some?
    ensures var p := AddPosition(d.menu.entries, name);
            AddDevice(d, name).selected == Some(if d.selected.value < p then d.selected.value else d.selected.value + 1)
  {
  }

  /** `removeDeviceMenuItem`: the first device with that name leaves the menu and
      the button group; an unknown name changes nothing. The selection is cleared
      exactly when the removed item is the selected one; otherwise the group keeps
      the very item it had selected, one further up when it came after the removed one. */
  function RemoveDevice(d: Devices, name: string): (r: Devices)
    ensures r.menu == RemoveEntry(d.menu, name)
    ensures name !in d.menu.entries ==> r.selected == d.selected
    ensures SelectionValid(d) ==> SelectionValid(r)
    ensures SelectionValid(d) ==> SelectedName(r) == None || SelectedName(r) == SelectedName(d)
    ensures r.selected.None? <==> d.selected.None? || FirstIndexOf(d.menu.entries, name) == Some(d.selected.value)
    ensures SelectionValid(d) && r.selected.Some? ==> SelectedName(r) == SelectedName(d)
    ensures FirstIndexOf(d.menu.entries, name).Some? && d.selected.Some?
            && d.selected.value != FirstIndexOf(d.menu.entries, name).value ==>
              var k := FirstIndexOf(d.menu.entries, name).value;
              r.selected == Some(if d.selected.value < k then d.selected.value else d.selected.value - 1)
  {
    var s := d.menu.entries;
    match FirstIndexOf(s, name)
    case None => Devices(RemoveEntry(d.menu, name), d.selected)
    case Some(k) =>
      var r := Devices(RemoveEntry(d.menu, name), ShiftForRemove(d.selected, k));
      WithoutFirstDeletesFirstMatch(s, name, k);
      if d.selected.Some? && d.selected.value < |s| && d.selected.value != k then
        ShiftForRemoveFollowsItem(s, d.selected.value, k);
        r
      else
        r
  }

  /** Every entry from the insertion point on sorts strictly after the new name,
      provided the list was sorted. */
  lemma AfterInsertionPointIsGreater(s: seq<string>, name: string, j: nat)
    requires Sorted(s) && AddPosition(s, name) <= j < |s|
    ensures Less(name, s[j])
  {
    var p := AddPosition(s, name);
    if j > p {
      LessTotal(s[p], s[j]);
      if s[p] != s[j] {
        LessTransitive(name, s[p], s[j]);
      }
    }
  }

  /** Adding a device to a sorted menu keeps it sorted. */
  lemma {:induction false} AddDeviceKeepsSorted(d: Devices, name: string)
    requires Sorted(d.menu.entries)
    ensures Sorted(AddDevice(d, name).menu.entries)
  {
    var s := d.menu.entries;
    var p := AddPosition(s, name);
    var t := AddDevice(d, name).menu.entries;
    assert t == s[..p] + [name] + s[p..];
    forall i, j | 0 <= i < j < |t|
      ensures !Less(t[j], t[i])
    {
      if j == p {
        assert t[i] == s[i];
      } else if i == p {
        assert t[j] == s[j - 1];
        AfterInsertionPointIsGreater(s, name, j - 1);
        CompareToAntisymmetric(name, s[j - 1]);
      } else {
        var i' := if i < p then i else i - 1;
        var j' := if j < p then j else j - 1;
        assert t[i] == s[i'] && t[j] == s[j'];
      }
    }
  }

  /** Ties go last and nothing is rejected: in a sorted menu the new device lands
      after every entry that does not sort after it, its equals included, and
      before every entry that does. */
  lemma AddDeviceInsertsAfterEquals(d: Devices, name: string)
    requires Sorted(d.menu.entries)
    ensures var s := d.menu.entries;
            exists p :: 0 <= p <= |s| && AddDevice(d, name).menu.entries == s[..p] + [name] + s[p..]
                        && (forall j :: 0 <= j < p ==> !Less(name, s[j]))
                        && (forall j :: p <= j < |s| ==> Less(name, s[j]))
  {
    var s := d.menu.entries;
    var p := AddPosition(s, name);
    forall j | p <= j < |s|
      ensures Less(name, s[j])
    {
      AfterInsertionPointIsGreater(s, name, j);
    }
  }

  /** Removing a device from a sorted menu keeps it sorted. */
  lemma RemoveDeviceKeepsSorted(d: Devices, name: string)
    requires Sorted(d.menu.entries)
    ensures Sorted(RemoveDevice(d, name).menu.entries)
  {
    var s := d.menu.entries;
    var t := RemoveDevice(d, name).menu.entries;
    var r := FirstIndexOf(s, name);
    if r.Some? {
      var k := r.value;
      assert t == s[..k] + s[k + 1..];
      forall i, j | 0 <= i < j < |t|
        ensures !Less(t[j], t[i])
      {
        var i' := if i < k then i else i + 1;
        var j' := if j < k then j else j + 1;
        assert t[i] == s[i'] && t[j] == s[j'];
      }
    }
  }

  /** Both operations keep the placeholder and the selection consistent. */
  lemma DeviceOperationsKeepWf(d: Devices, name: string)
    requires Wf(d)
    ensures Wf(AddDevice(d, name))
    ensures Wf(RemoveDevice(d, name))
  {
  }

  /** Sorted lists: every entry between the first occurrence of `name` and the
      insertion point of `name` equals `name`. */
  lemma EqualsRunUpToInsertionPoint(s: seq<string>, name: string, f: nat, j: nat)
    requires Sorted(s) && f <= j < AddPosition(s, name) && s[f] == name
    ensures s[j] == name
  {
    LessTotal(s[j], name);
  }

  /** Inserting `name` where no earlier entry has that name and then removing
      the first `name` gives the list back. */
  lemma DeleteInsertedFirst(s: seq<string>, name: string, p: nat)
    requires p <= |s| && forall j :: 0 <= j < p ==> s[j] != name
    ensures WithoutFirst(s[..p] + [name] + s[p..], name) == s
  {
    var t := s[..p] + [name] + s[p..];
    FirstIndexUnique(t, name, p);
    assert t[..p] + t[p + 1..] == s;
  }

  /** Inserting `name` right after a run of equal names and then removing the
      first `name` gives the list back: the run just shifts by one. */
  lemma DeleteInsertedAfterRun(s: seq<string>, name: string, f: nat, p: nat)
    requires f < p <= |s| && s[f] == name
    requires forall j :: 0 <= j < f ==> s[j] != name
    requires forall j :: f <= j < p ==> s[j] == name
    ensures WithoutFirst(s[..p] + [name] + s[p..], name) == s
  {
    var t := s[..p] + [name] + s[p..];
    FirstIndexUnique(t, name, f);
    assert t[..f] + t[f + 1..] == s;
  }

  /** On sequences: removing the first `name` after inserting one at its
      insertion point gives the sorted list back; when `name` was absent, the
      first match is the inserted one. */
  lemma InsertThenDeleteFirst(s: seq<string>, name: string)
    requires Sorted(s)
    ensures var p := AddPosition(s, name);
            var t := s[..p] + [name] + s[p..];
            WithoutFirst(t, name) == s && (name !in s ==> FirstIndexOf(t, name) == Some(p))
  {
    var p := AddPosition(s, name);
    var r := FirstIndexOf(s[..p], name);
    if r.None? {
      DeleteInsertedFirst(s, name, p);
      FirstIndexUnique(s[..p] + [name] + s[p..], name, p);
    } else {
      var f := r.value;
      forall j | f <= j < p
        ensures s[j] == name
      {
        EqualsRunUpToInsertionPoint(s, name, f, j);
      }
      DeleteInsertedAfterRun(s, name, f, p);
      assert s[f] in s;
    }
  }

  /** Round trip: in a well-formed sorted menu, adding a device and removing it
      again restores the menu; when the name was new, the selection too. */
  lemma AddThenRemoveDevice(d: Devices, name: string)
    requires Wf(d) && Sorted(d.menu.entries)
    ensures RemoveDevice(AddDevice(d, name), name).menu == d.menu
    ensures name !in d.menu.entries ==> RemoveDevice(AddDevice(d, name), name) == d
  {
    var s := d.menu.entries;
    var p := AddPosition(s, name);
    var a := AddDevice(d, name);
    assert a.menu.entries == s[..p] + [name] + s[p..];
    InsertThenDeleteFirst(s, name);
    var r := RemoveDevice(a, name);
    assert r.menu.entries == s;
    assert r.menu == d.menu;
    if name !in s {
      assert FirstIndexOf(a.menu.entries, name) == Some(p);
      assert r.selected == ShiftForRemove(a.selected, p);
      if |s| == 0 {
        assert a.selected == Some(p) && d.selected == None;
      } else {
        assert a.selected == ShiftForInsert(d.selected, p);
        ShiftRoundTrip(d.selected, p);
      }
    }
  }

  /** The first device ever added is selected, whatever its name sorts against the
      placeholder's text. */
  lemma FirstDeviceIsSelected(name: string)
    ensures AddDevice(Init(), name) == Devices(Menu(NoDevicesCaption, [name], false), Some(0))
  {
  }

  /** The round trip needs a sorted menu: in ["b", "a"] a new "b" is appended
      after "a", and removal then takes out the earlier "b". */
  lemma RoundTripNeedsSortedMenu()
    ensures var d := Devices(Menu(NoDevicesCaption, ["b", "a"], false), None);
            RemoveDevice(AddDevice(d, "b"), "b").menu.entries == ["a", "b"]
  {
    var d := Devices(Menu(NoDevicesCaption, ["b", "a"], false), None);
    assert "b"[0] == 'b' && "a"[0] == 'a';
    assert InsertionIndex(["b", "a"], "b") == -1;
    var a := AddDevice(d, "b");
    assert a.menu.entries == ["b", "a", "b"];
    assert FirstIndexOf(a.menu.entries, "b") == Some(0);
  }

  /** With a duplicate name the round trip restores the entries but not the
      selection: the first "A" is the selected item, and it is the one removed. */
  lemma DuplicateRoundTripDropsSelection()
    ensures var d := Devices(Menu(NoDevicesCaption, ["A"], false), Some(0));
            var r := RemoveDevice(AddDevice(d, "A"), "A");
            r.menu.entries == ["A"] && r.selected == None
  {
    var d := Devices(Menu(NoDevicesCaption, ["A"], false), Some(0));
    LessIrreflexive("A");
    assert InsertionIndex(["A"], "A") == -1;
    var a := AddDevice(d, "A");
    assert a.menu.entries == ["A", "A"] && a.selected == Some(0);
    assert FirstIndexOf(a.menu.entries, "A") == Some(0);
  }

  /** A duplicate name does not always cost the selection: when the selected
      device is not the first of that name, add then remove restores everything. */
  lemma DuplicateRoundTripKeepsOtherSelection()
    ensures var d := Devices(Menu(NoDevicesCaption, ["A", "B"], false), Some(1));
            RemoveDevice(AddDevice(d, "A"), "A") == d
  {
    var d := Devices(Menu(NoDevicesCaption, ["A", "B"], false), Some(1));
    LessIrreflexive("A");
    assert "A"[0] == 'A' && "B"[0] == 'B';
    assert InsertionIndex(["A", "B"], "A") == 1;
    var a := AddDevice(d, "A");
    assert a.menu.entries == ["A", "A", "B"] && a.selected == Some(2);
    assert FirstIndexOf(a.menu.entries, "A") == Some(0);
  }

  /** Nor is sortedness needed in every case: in the unsorted ["b", "a"], adding
      and removing "c" restores the menu, since "c" is appended and is the only "c". */
  lemma UnsortedRoundTripCanHold()
    ensures var d := Devices(Menu(NoDevicesCaption, ["b", "a"], false), None);
            RemoveDevice(AddDevice(d, "c"), "c") == d
  {
    var s := ["b", "a"];
    assert "b"[0] == 'b' && "a"[0] == 'a' && "c"[0] == 'c';
    assert s[1..] == ["a"] && s[1..][1..] == [];
    assert AddPosition(s, "c") == 2;
    assert s[..2] + ["c"] + s[2..] == ["b", "a", "c"];
    DeleteInsertedFirst(s, "c", 2);
  }
}
