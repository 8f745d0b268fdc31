/** The registry part of the main window: its device menu and its tools menu, and
    the calls through which devices and tools register and unregister at run time.
    Everything else the window does (layout, the diagram, the status bar) lies
    outside this model. */
module MainFrame {
  import opened Wrappers
  import opened Menus
  import DeviceMenu
  import ToolMenu

  datatype Frame = Frame(devices: DeviceMenu.Devices, tools: Menu)

  /** The window as its constructor leaves it: each menu holds only its placeholder. */
  function Init(): (f: Frame)
    ensures f.devices.menu.entries == [] && f.devices.menu.placeholder && ItemCount(f.devices.menu) == 1
    ensures f.devices.menu.caption == "No Devices." && f.devices.selected == None
    ensures f.tools.entries == [] && f.tools.placeholder && ItemCount(f.tools) == 1
    ensures f.tools.caption == "No Tools."
  {
    Frame(DeviceMenu.Init(), ToolMenu.Init())
  }

  /** A registration call made on the window. */
  datatype Event =
    | DeviceAdded(name: string)
    | DeviceRemoved(name: string)
    | ToolAdded(name: string)
    | ToolRemoved(name: string)

  /** One call: device calls touch only the device menu, tool calls only the tools menu. */
  function Apply(f: Frame, e: Event): (r: Frame)
    ensures (e.DeviceAdded? || e.DeviceRemoved?) ==> r.tools == f.tools
    ensures (e.ToolAdded? || e.ToolRemoved?) ==> r.devices == f.devices
  {
    match e
    case DeviceAdded(n) => f.(devices := DeviceMenu.AddDevice(f.devices, n))
    case DeviceRemoved(n) => f.(devices := DeviceMenu.RemoveDevice(f.devices, n))
    case ToolAdded(n) => f.(tools := ToolMenu.AddTool(f.tools, n))
    case ToolRemoved(n) => f.(tools := ToolMenu.RemoveTool(f.tools, n))
  }

  /** The window after a sequence of calls, starting from the constructor's state. */
  function Replay(events: seq<Event>): Frame
    decreases |events|
  {
    if |events| == 0 then Init()
    else Apply(Replay(events[..|events| - 1]), events[|events| - 1])
  }

  /** What every reachable window satisfies: in both menus the placeholder is shown
      exactly when there are no entries, the devices are in ascending order, and a
      selected device is one of the entries. */
  predicate Invariant(f: Frame)
  {
    && DeviceMenu.Wf(f.devices)
    && DeviceMenu.Sorted(f.devices.menu.entries)
    && PlaceholderExact(f.tools)
  }

  /** Every call keeps the invariant. */
  lemma ApplyKeepsInvariant(f: Frame, e: Event)
    requires Invariant(f)
    ensures Invariant(Apply(f, e))
  {
    match e
    case DeviceAdded(n) =>
      DeviceMenu.DeviceOperationsKeepWf(f.devices, n);
      DeviceMenu.AddDeviceKeepsSorted(f.devices, n);
    case DeviceRemoved(n) =>
      DeviceMenu.DeviceOperationsKeepWf(f.devices, n);
      DeviceMenu.RemoveDeviceKeepsSorted(f.devices, n);
    case ToolAdded(n) =>
    case ToolRemoved(n) =>
  }

  /** Every window reachable through registration calls satisfies the invariant. */
  lemma {:induction false} ReplayKeepsInvariant(events: seq<Event>)
    ensures Invariant(Replay(events))
    decreases |events|
  {
    if |events| > 0 {
      ReplayKeepsInvariant(events[..|events| - 1]);
      ApplyKeepsInvariant(Replay(events[..|events| - 1]), events[|events| - 1]);
    }
  }

  /** Reference: the tools in the order they were registered, each unregistration
      taking out the earliest remaining tool of that name. */
  function RegisteredTools(events: seq<Event>): seq<string>
    decreases |events|
  {
    if |events| == 0 then []
    else
      var earlier := RegisteredTools(events[..|events| - 1]);
      match events[|events| - 1]
      case ToolAdded(n) => earlier + [n]
      case ToolRemoved(n) => DeleteFirst(earlier, n)
      case _ => earlier
  }

  /** The tools menu lists the tools in registration order, never sorted. */
  lemma {:induction false} ToolsFollowRegistrationOrder(events: seq<Event>)
    ensures Replay(events).tools.entries == RegisteredTools(events)
    decreases |events|
  {
    if |events| > 0 {
      ToolsFollowRegistrationOrder(events[..|events| - 1]);
    }
  }

  /** Reference: the device names registered and not yet unregistered, counted
      with multiplicity, since a second registration of a name is not refused. */
  function RegisteredDevices(events: seq<Event>): multiset<string>
    decreases |events|
  {
    if |events| == 0 then multiset{}
    else
      var earlier := RegisteredDevices(events[..|events| - 1]);
      match events[|events| - 1]
      case DeviceAdded(n) => earlier + multiset{n}
      case DeviceRemoved(n) => earlier - multiset{n}
      case _ => earlier
  }

  /** The device menu holds exactly the registered devices; together with the
      invariant's ordering this fixes the menu completely. */
  lemma {:induction false} DevicesAreTheRegisteredOnes(events: seq<Event>)
    ensures multiset(Replay(events).devices.menu.entries) == RegisteredDevices(events)
    decreases |events|
  {
    if |events| > 0 {
      DevicesAreTheRegisteredOnes(events[..|events| - 1]);
    }
  }

  /** Unregistering a name that is not there changes nothing, in either menu. */
  lemma UnknownNameIsIgnored(f: Frame, name: string)
    requires Invariant(f)
    ensures name !in f.devices.menu.entries ==> Apply(f, DeviceRemoved(name)) == f
    ensures name !in f.tools.entries ==> Apply(f, ToolRemoved(name)) == f
  {
  }

  /** Registering a device in the fresh window and unregistering it again gives
      the fresh window back: placeholder shown, nothing selected. */
  lemma RegisterThenUnregisterDevice(name: string)
    ensures Replay([DeviceAdded(name), DeviceRemoved(name)]) == Init()
  {
    var e := [DeviceAdded(name), DeviceRemoved(name)];
    assert e[..1] == [DeviceAdded(name)] && e[..1][..0] == [];
    var f1 := Apply(Init(), DeviceAdded(name));
    assert Replay(e[..1]) == f1;
    DeviceMenu.AddThenRemoveDevice(DeviceMenu.Init(), name);
    assert Apply(f1, DeviceRemoved(name)) == Init();
  }

  /** The same round trip for a tool. */
  lemma RegisterThenUnregisterTool(name: string)
    ensures Replay([ToolAdded(name), ToolRemoved(name)]) == Init()
  {
    var e := [ToolAdded(name), ToolRemoved(name)];
    assert e[..1] == [ToolAdded(name)] && e[..1][..0] == [];
    var f1 := Apply(Init(), ToolAdded(name));
    assert Replay(e[..1]) == f1;
    ToolMenu.AddThenRemoveTool(ToolMenu.Init(), name);
    assert Apply(f1, ToolRemoved(name)) == Init();
  }

  /** Devices are sorted and the first device stays selected: "Zeta" then
      "Alpha" lists "Alpha" first. */
  lemma ZetaThenAlphaDevices()
    ensures var f := Replay([DeviceAdded("Zeta"), DeviceAdded("Alpha")]);
            f.devices.menu.entries == ["Alpha", "Zeta"] && DeviceMenu.SelectedName(f.devices) == Some("Zeta")
  {
    var e := [DeviceAdded("Zeta"), DeviceAdded("Alpha")];
    assert e[..1] == [DeviceAdded("Zeta")] && e[..1][..0] == [];
    var f1 := Apply(Init(), DeviceAdded("Zeta"));
    assert Replay(e[..1]) == f1;
    DeviceMenu.FirstDeviceIsSelected("Zeta");
    var d1 := DeviceMenu.Devices(Menu("No Devices.", ["Zeta"], false), Some(0));
    assert f1.devices == d1;
    assert "Alpha"[0] == 'A' && "Zeta"[0] == 'Z';
    assert DeviceMenu.InsertionIndex(["Zeta"], "Alpha") == 0;
    var d2 := DeviceMenu.AddDevice(d1, "Alpha");
    assert d2.menu.entries == ["Alpha", "Zeta"];
    assert d2.selected == Some(1);
    assert Replay(e) == f1.(devices := d2);
  }

  /** Tools are not sorted: "Zeta" then "Alpha" keeps that order. */
  lemma ZetaThenAlphaTools()
    ensures Replay([ToolAdded("Zeta"), ToolAdded("Alpha")]).tools.entries == ["Zeta", "Alpha"]
  {
    var e := [ToolAdded("Zeta"), ToolAdded("Alpha")];
    assert e[..1] == [ToolAdded("Zeta")] && e[..1][..0] == [];
    assert Replay(e[..1]) == Apply(Init(), ToolAdded("Zeta"));
  }

  /** A second registration of the same device name is kept, not refused. */
  lemma DuplicateDeviceIsKept()
    ensures Replay([DeviceAdded("X"), DeviceAdded("X")]).devices.menu.entries == ["X", "X"]
  {
    var e := [DeviceAdded("X"), DeviceAdded("X")];
    assert e[..1] == [DeviceAdded("X")];
  }

  /** Unregistering a device other than the selected one keeps the selection:
      with "B" selected, registering and unregistering "A", which sorts before it,
      leaves "B" selected. */
  lemma UnregisterOtherKeepsSelection()
    ensures var f := Replay([DeviceAdded("B"), DeviceAdded("A"), DeviceRemoved("A")]);
            f.devices.menu.entries == ["B"] && DeviceMenu.SelectedName(f.devices) == Some("B")
  {
    var e := [DeviceAdded("B"), DeviceAdded("A"), DeviceRemoved("A")];
    assert e[..2] == [DeviceAdded("B"), DeviceAdded("A")] && e[..2][..1] == [DeviceAdded("B")];
    assert e[..2][..1][..0] == [];
    DeviceMenu.FirstDeviceIsSelected("B");
    var d1 := DeviceMenu.Devices(Menu("No Devices.", ["B"], false), Some(0));
    assert Replay(e[..2][..1]).devices == d1;
    assert "A"[0] == 'A' && "B"[0] == 'B';
    assert DeviceMenu.InsertionIndex(["B"], "A") == 0;
    var d2 := DeviceMenu.AddDevice(d1, "A");
    assert d2.menu.entries == ["A", "B"] && DeviceMenu.SelectedName(d2) == Some("B");
    assert Replay(e[..2]).devices == d2;
    var d3 := DeviceMenu.RemoveDevice(d2, "A");
    assert FirstIndexOf(d2.menu.entries, "A") == Some(0);
    assert d3.menu.entries == ["B"];
    assert Replay(e).devices == d3;
  }
}
