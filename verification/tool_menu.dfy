/** The tools menu of the main window: plain entries in registration order, a
    "No Tools." placeholder while there are none, and no selection. */
module ToolMenu {
  import opened Menus

  /** The placeholder's text. */
  const NoToolsCaption: string := "No Tools."

  /** The tools menu as the main window builds it: only the placeholder. */
  function Init(): (t: Menu)
    ensures t.caption == NoToolsCaption
    ensures t.entries == [] && t.placeholder && ItemCount(t) == 1
  {
    Empty(NoToolsCaption)
  }

  /** `addToolMenuItem`: the placeholder goes and the tool is appended, after every
      tool registered before it, whatever the names. */
  function AddTool(t: Menu, name: string): (r: Menu)
    ensures r.caption == t.caption
    ensures !r.placeholder && PlaceholderExact(r)
    ensures |r.entries| == |t.entries| + 1 && r.entries[..|t.entries|] == t.entries
    ensures r.entries[|t.entries|] == name
  {
    t.(entries := t.entries + [name], placeholder := false)
  }

  /** `removeToolMenuItem`: the first tool with that name goes; an unknown name
      changes nothing; an emptied menu gets its placeholder back. */
  function RemoveTool(t: Menu, name: string): (r: Menu)
    ensures r.caption == t.caption
    ensures r.entries == DeleteFirst(t.entries, name)
    ensures ItemCount(r) > 0
    ensures PlaceholderExact(t) ==> PlaceholderExact(r)
    ensures PlaceholderExact(t) && name !in t.entries ==> r == t
  {
    WithoutFirstIsDeleteFirst(t.entries, name);
    RemoveEntry(t, name)
  }

  /** Round trip: registering a new tool and unregistering it restores the menu. */
  lemma AddThenRemoveTool(t: Menu, name: string)
    requires PlaceholderExact(t) && name !in t.entries
    ensures RemoveTool(AddTool(t, name), name) == t
  {
    var s := t.entries;
    FirstIndexUnique(s + [name], name, |s|);
    assert (s + [name])[..|s|] == s;
  }
}
