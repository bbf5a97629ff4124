/**
 * The application registry of app/framework.c as the kernel keeps it:
 * applications is an array of MAX_APPLICATIONS pointers (indices into the
 * application records, which the callers own), next_app_id and
 * framework_initialized are fields, and the window manager it calls is an
 * object of its own. Every operation is proved against the function of the
 * same name in AppSpec.
 */
module AppFramework {
  import opened Machine
  import opened Wrappers
  import opened AppSpec
  import WmSpec
  import WindowManager

  class Framework {
    var apps: seq<App>
    const slots: array<Option<nat>>
    var nextId: u32
    var initialized: bool
    const wm: WindowManager.WindowManager

    function State(): Reg
      reads this, slots
    {
      Reg(apps, slots[..], nextId, initialized)
    }

    ghost predicate Ready()
      reads this, slots, wm, wm.windows
    {
      slots.Length == MAX_APPLICATIONS && Wf(State()) && wm.Ready()
    }

    /** The registry before app_framework_init, over the given records and window manager. */
    constructor(records: seq<App>, manager: WindowManager.WindowManager)
      requires manager.Ready()
      ensures Ready() && State() == Empty(records) && wm == manager
    {
      apps := records;
      slots := new Option<nat>[MAX_APPLICATIONS](_ => None);
      nextId, initialized := 1, false;
      wm := manager;
    }

    /** app_framework_init; the built-in applications it then sets up are not modelled. */
    method Init()
      requires Ready()
      modifies this, slots
      ensures Ready() && State() == AppSpec.Init(old(State()))
    {
      forall i | 0 <= i < MAX_APPLICATIONS {
        slots[i] := None;
      }
      nextId := 1;
      initialized := true;
    }

    /** app_register; the application's init callback is not modelled. */
    method Register(app: Option<nat>) returns (id: u32)
      requires Ready() && (app.Some? ==> app.value < |apps|)
      modifies this, slots
      ensures Ready() && (State(), id) == AppSpec.Register(old(State()), app)
    {
      if !initialized || app.None? {
        return 0;
      }
      for i := 0 to MAX_APPLICATIONS
        invariant forall j :: 0 <= j < i ==> slots[j].Some?
      {
        if slots[i].None? {
          assert FreeFrom(slots[..], i) == Some(i);
          var a := app.value;
          id := nextId;
          apps := apps[a := apps[a].(appId := id)];
          nextId := Wrap32(nextId as int + 1);
          slots[i] := app;
          return;
        }
      }
      return 0;
    }

    /** The slot search of app_unregister and app_get. */
    method Find(id: u32) returns (r: Option<nat>)
      requires Ready()
      ensures r == FindFrom(State(), id, 0)
    {
      for i := 0 to MAX_APPLICATIONS
        invariant FindFrom(State(), id, 0) == FindFrom(State(), id, i)
      {
        if slots[i].Some? && apps[slots[i].value].appId == id {
          return Some(i);
        }
      }
      return None;
    }

    /** app_get. */
    method Get(id: u32) returns (app: Option<nat>)
      requires Ready()
      ensures app == AppSpec.Get(State(), id)
    {
      var i := Find(id);
      if i.None? {
        return None;
      }
      return slots[i.value];
    }

    /** app_unregister; the cleanup callback is not modelled. */
    method Unregister(id: u32)
      requires Ready()
      modifies slots, wm, wm.windows
      ensures Ready() && (State(), wm.State()) == AppSpec.Unregister(old(State()), old(wm.State()), id)
    {
      var i := Find(id);
      if i.None? {
        return;
      }
      var main := apps[slots[i.value].value].mainWindowId;
      if main != 0 {
        wm.DestroyWindow(main);
      }
      slots[i.value] := None;
    }

    /** app_create_window, given whether the window buffer could be allocated. */
    method CreateWindow(app: Option<nat>, title: Option<seq<char>>, width: u32, height: u32, gotBuffer: bool)
      returns (windowId: u32)
      requires Ready() && (app.Some? ==> app.value < |apps|)
      modifies this, wm, wm.windows
      ensures Ready() &&
        (State(), wm.State(), windowId) == AppSpec.CreateWindow(old(State()), old(wm.State()), app, title, width, height, gotBuffer)
    {
      if app.None? {
        return 0;
      }
      var a := app.value;
      var origin := Wrap32(100 + apps[a].appId as int * 30);
      windowId := wm.CreateWindow(origin, origin, width, height, title, APP_WINDOW_FLAGS, gotBuffer);
      if apps[a].mainWindowId == 0 {
        apps := apps[a := apps[a].(mainWindowId := windowId)];
      }
    }
  }
}
