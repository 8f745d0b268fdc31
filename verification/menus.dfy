/** What the device menu and the tools menu of the main window have in common: a
    list of named entries plus a disabled placeholder item ("No Devices." or "No
    Tools.") that stands in for them while there are none.

    The placeholder is kept as a flag rather than as an element of the list: it
    carries a caption but no component name, so a removal by name never matches it;
    an add removes it before anything is compared; and the only other thing that
    looks at it is the item count. Its position among the items is therefore never
    observed. */
module Menus {
  import opened Wrappers

  /** `caption` is the placeholder's text, `entries` the names of the real items in
      display order, and `placeholder` whether the placeholder item is in the menu. */
  datatype Menu = Menu(caption: string, entries: seq<string>, placeholder: bool)

  /** The number of items in the menu, the placeholder included. */
  function ItemCount(m: Menu): nat
  {
    |m.entries| + (if m.placeholder then 1 else 0)
  }

  /** The placeholder is shown exactly when there are no real entries. */
  predicate PlaceholderExact(m: Menu)
  {
    m.placeholder <==> |m.entries| == 0
  }

  /** A menu holding only its placeholder, as the main window builds it. */
  function Empty(caption: string): (m: Menu)
    ensures PlaceholderExact(m) && ItemCount(m) == 1
  {
    Menu(caption, [], true)
  }

  /** The position of the first entry named `n`, if any. */
  function FirstIndexOf(s: seq<string>, n: string): (r: Option<nat>)
    ensures r.Some? ==> r.value < |s| && s[r.value] == n
    ensures r.Some? ==> forall j :: 0 <= j < r.value ==> s[j] != n
    ensures r.None? <==> n !in s
  {
    if |s| == 0 then None
    else if s[0] == n then Some(0)
    else
      assert s == [s[0]] + s[1..];
      match FirstIndexOf(s[1..], n)
      case None => None
      case Some(k) => Some(k + 1)
  }

  /** The first occurrence is unique: any position holding `n` with no `n` before it is the one. */
  lemma FirstIndexUnique(s: seq<string>, n: string, k: nat)
    requires k < |s| && s[k] == n
    requires forall j :: 0 <= j < k ==> s[j] != n
    ensures FirstIndexOf(s, n) == Some(k)
  {
    assert s[k] in s;
  }

  /** The scan over the menu items in `removeDeviceMenuItem` and
      `removeToolMenuItem`: the first item whose name equals `n`. */
  method FindMenuItem(s: seq<string>, n: string) returns (r: Option<nat>)
    ensures r == FirstIndexOf(s, n)
  {
    r := None;
    var i := 0;
    while i < |s|
      invariant 0 <= i <= |s|
      invariant forall j :: 0 <= j < i ==> s[j] != n
    {
      if s[i] == n {
        r := Some(i);
        FirstIndexUnique(s, n, i);
        return;
      }
      i := i + 1;
    }
  }

  /** A reference definition of removal by name: drop the first occurrence of `n`,
      keep everything else in order. */
  function DeleteFirst(s: seq<string>, n: string): seq<string>
  {
    if |s| == 0 then []
    else if s[0] == n then s[1..]
    else [s[0]] + DeleteFirst(s[1..], n)
  }

  /** When the menu holds no item at all, the placeholder is put back. */
  function RestorePlaceholder(m: Menu): (r: Menu)
    ensures r.caption == m.caption && r.entries == m.entries
    ensures r.placeholder <==> m.placeholder || |m.entries| == 0
  {
    if ItemCount(m) == 0 then m.(placeholder := true) else m
  }

  /** The entries left after removing the first one named `name`; all of them
      when there is none. */
  function WithoutFirst(s: seq<string>, name: string): (r: seq<string>)
    ensures name !in s ==> r == s
    ensures name in s ==> |r| == |s| - 1
    ensures multiset(r) == multiset(s) - multiset{name}
  {
    match FirstIndexOf(s, name)
    case None => s
    case Some(k) =>
      assert s == s[..k] + [s[k]] + s[k + 1..];
      s[..k] + s[k + 1..]
  }

  /** Removal deletes exactly the first match and keeps the rest in order. */
  lemma WithoutFirstDeletesFirstMatch(s: seq<string>, name: string, k: nat)
    requires k < |s| && s[k] == name
    requires forall j :: 0 <= j < k ==> s[j] != name
    ensures WithoutFirst(s, name) == s[..k] + s[k + 1..]
  {
    FirstIndexUnique(s, name, k);
  }

  /** Removing from a list whose head is not `name` keeps the head. */
  lemma WithoutFirstKeepsHead(s: seq<string>, name: string)
    requires |s| > 0 && s[0] != name
    ensures WithoutFirst(s, name) == [s[0]] + WithoutFirst(s[1..], name)
  {
    var t := s[1..];
    var r := FirstIndexOf(t, name);
    if r.Some? {
      var k := r.value;
      FirstIndexUnique(s, name, k + 1);
      WithoutFirstDeletesFirstMatch(t, name, k);
      SpliceUnderCons(s, k + 1);
    } else {
      assert s == [s[0]] + t;
    }
  }

  /** Deleting a position after the head commutes with taking the head off. */
  lemma SpliceUnderCons(s: seq<string>, k: nat)
    requires 0 < k < |s|
    ensures s[..k] + s[k + 1..] == [s[0]] + (s[1..][..k - 1] + s[1..][k..])
  {
  }

  /** Removal agrees with the reference definition on every list and name. */
  lemma {:induction false} WithoutFirstIsDeleteFirst(s: seq<string>, name: string)
    ensures WithoutFirst(s, name) == DeleteFirst(s, name)
    decreases |s|
  {
    if |s| > 0 && s[0] != name {
      WithoutFirstIsDeleteFirst(s[1..], name);
      WithoutFirstKeepsHead(s, name);
    }
  }

  /** Removal by name, shared by both menus: the first entry named `name` is
      deleted; an unknown name changes nothing; a menu left without items gets its
      placeholder back. */
  function RemoveEntry(m: Menu, name: string): (r: Menu)
    ensures r.caption == m.caption && r.entries == WithoutFirst(m.entries, name)
    ensures ItemCount(r) > 0
    ensures PlaceholderExact(m) ==> PlaceholderExact(r)
    ensures PlaceholderExact(m) && name !in m.entries ==> r == m
  {
    RestorePlaceholder(m.(entries := WithoutFirst(m.entries, name)))
  }

  /** The placeholder has no name: removing a name equal to its caption is a no-op. */
  lemma PlaceholderNeverRemoved(caption: string)
    ensures RemoveEntry(Empty(caption), caption) == Empty(caption)
  {
  }
}
