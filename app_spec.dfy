/**
 * The application registry of app/framework.c as values. The
 * application_t records the callers own are kept in an arena (a pointer
 * is an index into it, NULL is None), with the registry's MAX_APPLICATIONS
 * slots of pointers, next_app_id and the initialised flag. The callbacks
 * (init, update, render, cleanup, handle_event) are code the registry
 * cannot see and are left to their callers.
 */
module AppSpec {
  import opened Machine
  import opened Wrappers
  import WmSpec

  const MAX_APPLICATIONS: int := 32

  /** What the registry reads and writes of an application_t. */
  datatype App = App(appId: u32, name: seq<char>, mainWindowId: u32, running: bool)

  /** The application records, applications[], next_app_id and framework_initialized. */
  datatype Reg = Reg(apps: seq<App>, slots: seq<Option<nat>>, nextId: u32, initialized: bool)

  /** The slots hold pointers to records that exist. */
  predicate Wf(r: Reg)
  {
    |r.slots| == MAX_APPLICATIONS &&
    forall i :: 0 <= i < |r.slots| && r.slots[i].Some? ==> r.slots[i].value < |r.apps|
  }

  /** The statics before app_framework_init, with the records that exist. */
  function Empty(apps: seq<App>): (r: Reg)
    ensures Wf(r)
  {
    Reg(apps, seq(MAX_APPLICATIONS, _ => None), 1, false)
  }

  /** app_framework_init: every slot empty, ids from 1. */
  function Init(r: Reg): (r': Reg)
    ensures Wf(r')
  {
    Reg(r.apps, seq(MAX_APPLICATIONS, _ => None), 1, true)
  }

  /** The first empty slot from `from` on. */
  function FreeFrom(slots: seq<Option<nat>>, from: nat): (i: Option<nat>)
    decreases |slots| - from
    ensures i.Some? ==> from <= i.value < |slots| && slots[i.value].None? &&
                        forall j :: from <= j < i.value ==> slots[j].Some?
    ensures i.None? <==> forall j :: from <= j < |slots| ==> slots[j].Some?
  {
    if from >= |slots| then None
    else if slots[from].None? then Some(from)
    else FreeFrom(slots, from + 1)
  }

  /** The first slot from `from` on that points to an application with this id. */
  function FindFrom(r: Reg, id: u32, from: nat): (i: Option<nat>)
    requires Wf(r)
    decreases |r.slots| - from
    ensures i.Some? ==> from <= i.value < |r.slots| && r.slots[i.value].Some? && r.apps[r.slots[i.value].value].appId == id &&
                        forall j :: from <= j < i.value ==> r.slots[j].None? || r.apps[r.slots[j].value].appId != id
    ensures i.None? <==> forall j :: from <= j < |r.slots| ==> r.slots[j].None? || r.apps[r.slots[j].value].appId != id
  {
    if from >= |r.slots| then None
    else if r.slots[from].Some? && r.apps[r.slots[from].value].appId == id then Some(from)
    else FindFrom(r, id, from + 1)
  }

  /**
   * app_register(app): 0 before app_framework_init, for NULL or with every
   * slot taken; otherwise the first empty slot gets the pointer, the
   * application gets next_app_id as its id, and that id is returned.
   */
  function Register(r: Reg, app: Option<nat>): (res: (Reg, u32))
    requires Wf(r) && (app.Some? ==> app.value < |r.apps|)
    ensures Wf(res.0)
  {
    if !r.initialized || app.None? then (r, 0)
    else
      var slot := FreeFrom(r.slots, 0);
      if slot.None? then (r, 0)
      else
        var a := app.value;
        (r.(apps := r.apps[a := r.apps[a].(appId := r.nextId)],
            slots := r.slots[slot.value := app],
            nextId := Wrap32(r.nextId as int + 1)), r.nextId)
  }

  /** app_get(id): the application in the first slot with that id. */
  function Get(r: Reg, id: u32): (app: Option<nat>)
    requires Wf(r)
    ensures app.Some? ==> app.value < |r.apps| && r.apps[app.value].appId == id
    ensures app.None? <==> forall j :: 0 <= j < |r.slots| ==> r.slots[j].None? || r.apps[r.slots[j].value].appId != id
  {
    var i := FindFrom(r, id, 0);
    if i.None? then None else r.slots[i.value]
  }

  /**
   * app_unregister(id): the first slot with that id is emptied, after the
   * application's main window, if it has one, is destroyed; an unknown id
   * changes nothing.
   */
  function Unregister(r: Reg, wm: WmSpec.Wm, id: u32): (res: (Reg, WmSpec.Wm))
    requires Wf(r) && WmSpec.Wf(wm)
    ensures Wf(res.0) && WmSpec.Wf(res.1)
  {
    var i := FindFrom(r, id, 0);
    if i.None? then (r, wm)
    else
      var main := r.apps[r.slots[i.value].value].mainWindowId;
      var wm' := if main != 0 then WmSpec.Destroy(wm, main) else wm;
      (r.(slots := r.slots[i.value := None]), wm')
  }

  /** The flags app_create_window passes: RESIZABLE | CLOSABLE | MINIMIZABLE | MAXIMIZABLE. */
  const APP_WINDOW_FLAGS: WmSpec.FlagWord := {WmSpec.FLAG_RESIZABLE, WmSpec.FLAG_CLOSABLE, WmSpec.FLAG_MINIMIZABLE, WmSpec.FLAG_MAXIMIZABLE}

  /** Where app_create_window places a window: 100 + app_id * 30 in 32-bit arithmetic, on both axes. */
  function WindowOrigin(appId: u32): (p: u32)
    ensures appId as int * 30 + 100 < U32_LIMIT ==> p == appId as int * 30 + 100
  {
    Wrap32(100 + appId as int * 30)
  }

  /**
   * app_create_window(app, title, width, height), given whether the window
   * buffer could be allocated: 0 for NULL; otherwise the window manager's
   * result, which becomes the main window only while the application has
   * none.
   */
  function CreateWindow(r: Reg, wm: WmSpec.Wm, app: Option<nat>, title: Option<seq<char>>, width: u32, height: u32,
                        gotBuffer: bool): (res: (Reg, WmSpec.Wm, u32))
    requires Wf(r) && WmSpec.Wf(wm) && (app.Some? ==> app.value < |r.apps|)
    ensures Wf(res.0) && WmSpec.Wf(res.1)
  {
    if app.None? then (r, wm, 0)
    else
      var a := app.value;
      var origin := WindowOrigin(r.apps[a].appId);
      var (wm', windowId) := WmSpec.Create(wm, origin, origin, width, height, title, APP_WINDOW_FLAGS, gotBuffer);
      var r' := if r.apps[a].mainWindowId == 0 then r.(apps := r.apps[a := r.apps[a].(mainWindowId := windowId)]) else r;
      (r', wm', windowId)
  }

  // ---------------------------------------------------------------------
  // Properties

  /** The slot of the application with pointer a, if it is registered. */
  predicate Registered(r: Reg, a: nat)
  {
    exists i :: 0 <= i < |r.slots| && r.slots[i] == Some(a)
  }

  /**
   * Ids are handed out in increasing order: each registered application
   * has an id below next_app_id, and no application sits in two slots or
   * shares its id with another registered one.
   */
  predicate IdsOk(r: Reg)
    requires Wf(r)
  {
    r.nextId >= 1 &&
    (forall i :: 0 <= i < |r.slots| && r.slots[i].Some? ==> r.apps[r.slots[i].value].appId < r.nextId) &&
    (forall i, j :: 0 <= i < j < |r.slots| && r.slots[i].Some? && r.slots[j].Some? ==>
       r.slots[i].value != r.slots[j].value && r.apps[r.slots[i].value].appId != r.apps[r.slots[j].value].appId)
  }

  /** app_framework_init leaves no application registered and ids starting at 1. */
  lemma InitOutcome(r: Reg, id: u32)
    ensures var r' := Init(r); r'.initialized && r'.nextId == 1 && IdsOk(r') && Get(r', id).None?
  {
  }

  /**
   * app_register returns 0 and changes nothing before app_framework_init,
   * for NULL or with every slot taken; otherwise the first empty slot
   * points to the application, which carries the returned id, the old
   * next_app_id.
   */
  lemma RegisterOutcome(r: Reg, app: Option<nat>)
    requires Wf(r) && (app.Some? ==> app.value < |r.apps|)
    ensures var (r', id) := Register(r, app);
      (!r.initialized || app.None? || FreeFrom(r.slots, 0).None? ==> r' == r && id == 0) &&
      (r.initialized && app.Some? && FreeFrom(r.slots, 0).Some? ==>
        var s := FreeFrom(r.slots, 0).value;
        id == r.nextId && r'.nextId == Wrap32(id as int + 1) &&
        r'.slots[s] == app && r'.apps[app.value].appId == id &&
        r'.apps[app.value].(appId := 0) == r.apps[app.value].(appId := 0) &&
        (forall j :: 0 <= j < |r.slots| && j != s ==> r'.slots[j] == r.slots[j]) &&
        (forall b :: 0 <= b < |r.apps| && b != app.value ==> r'.apps[b] == r.apps[b]))
  {
  }

  /**
   * Registering an application that is not registered yet keeps the ids
   * unique until next_app_id would wrap; the new id is above every other
   * registered id, and app_get finds the application under it.
   */
  lemma RegisterKeepsIds(r: Reg, a: nat)
    requires Wf(r) && IdsOk(r) && a < |r.apps| && !Registered(r, a) && r.nextId as int + 1 < U32_LIMIT
    ensures var (r', id) := Register(r, Some(a));
      IdsOk(r') && (id != 0 ==> Get(r', id) == Some(a) &&
                                forall i :: 0 <= i < |r'.slots| && r'.slots[i].Some? && r'.slots[i] != Some(a) ==>
                                  r'.apps[r'.slots[i].value].appId < id)
  {
    var (r', id) := Register(r, Some(a));
    if id != 0 {
      var s := FreeFrom(r.slots, 0).value;
      assert forall i :: 0 <= i < |r.slots| && r.slots[i].Some? ==> r.slots[i].value != a;
      assert forall i :: 0 <= i < |r.slots| && i != s && r.slots[i].Some? ==>
        r'.slots[i] == r.slots[i] && r'.apps[r.slots[i].value] == r.apps[r.slots[i].value];
      assert IdsOk(r');
      var f := FindFrom(r', id, 0);
      assert r'.slots[s] == Some(a) && r'.apps[a].appId == id;
      assert forall j :: 0 <= j < s ==> r'.slots[j].Some? && r'.apps[r'.slots[j].value].appId != id;
      assert f.Some? && f.value == s;
    }
  }

  /** app_get finds only registered applications, and with unique ids the first slot's one is the only one. */
  lemma GetRegistered(r: Reg, id: u32)
    requires Wf(r)
    ensures Get(r, id).Some? ==> Registered(r, Get(r, id).value)
    ensures IdsOk(r) ==> forall a :: 0 <= a < |r.apps| && Registered(r, a) && r.apps[a].appId == id ==> Get(r, id) == Some(a)
  {
    if Get(r, id).Some? {
      var i := FindFrom(r, id, 0).value;
      assert r.slots[i] == Some(Get(r, id).value);
    }
    if IdsOk(r) {
      forall a | 0 <= a < |r.apps| && Registered(r, a) && r.apps[a].appId == id
        ensures Get(r, id) == Some(a)
      {
        var k :| 0 <= k < |r.slots| && r.slots[k] == Some(a);
        var i := FindFrom(r, id, 0).value;
        assert i == k;
      }
    }
  }

  /**
   * app_unregister on an unknown id changes nothing; otherwise the first
   * slot with that id is emptied and the window manager sees
   * wm_destroy_window of the main window when there is one.
   */
  lemma UnregisterOutcome(r: Reg, wm: WmSpec.Wm, id: u32)
    requires Wf(r) && WmSpec.Wf(wm)
    ensures var (r', wm') := Unregister(r, wm, id);
      r'.apps == r.apps && r'.nextId == r.nextId && r'.initialized == r.initialized &&
      (Get(r, id).None? ==> r' == r && wm' == wm) &&
      (Get(r, id).Some? ==>
        var main := r.apps[Get(r, id).value].mainWindowId;
        (main == 0 ==> wm' == wm) && (main != 0 ==> wm' == WmSpec.Destroy(wm, main)) &&
        exists i :: 0 <= i < |r.slots| && r.slots[i] == Get(r, id) && r'.slots == r.slots[i := None])
  {
    var i := FindFrom(r, id, 0);
    if i.Some? {
      assert r.slots[i.value] == Get(r, id);
    }
  }

  /** With unique ids, once app_unregister(id) returns no application has that id, and the ids stay unique. */
  lemma UnregisterRemoves(r: Reg, wm: WmSpec.Wm, id: u32)
    requires Wf(r) && WmSpec.Wf(wm) && IdsOk(r)
    ensures var r' := Unregister(r, wm, id).0; Get(r', id).None? && IdsOk(r')
  {
    var i := FindFrom(r, id, 0);
    var r' := Unregister(r, wm, id).0;
    if i.Some? {
      assert forall j :: 0 <= j < |r.slots| && j != i.value && r.slots[j].Some? ==> r.apps[r.slots[j].value].appId != id;
      assert forall j :: 0 <= j < |r'.slots| ==> r'.slots[j].None? || r'.apps[r'.slots[j].value].appId != id;
    }
  }

  /**
   * app_create_window: 0 for NULL; otherwise the window manager creates
   * the window at (100 + 30 * app_id, 100 + 30 * app_id) with the four
   * application flags, and the result becomes main_window_id only while
   * that is 0. Nothing else of the registry changes.
   */
  lemma CreateWindowMain(r: Reg, wm: WmSpec.Wm, app: Option<nat>, title: Option<seq<char>>, width: u32, height: u32,
                         gotBuffer: bool)
    requires Wf(r) && WmSpec.Wf(wm) && (app.Some? ==> app.value < |r.apps|)
    ensures var (r', wm', windowId) := CreateWindow(r, wm, app, title, width, height, gotBuffer);
      (app.None? ==> r' == r && wm' == wm && windowId == 0) &&
      (app.Some? ==>
        var a := app.value;
        var origin := WindowOrigin(r.apps[a].appId);
        (wm', windowId) == WmSpec.Create(wm, origin, origin, width, height, title, APP_WINDOW_FLAGS, gotBuffer) &&
        r'.apps[a].mainWindowId == (if r.apps[a].mainWindowId == 0 then windowId else r.apps[a].mainWindowId) &&
        r'.apps[a].(mainWindowId := 0) == r.apps[a].(mainWindowId := 0) &&
        r'.slots == r.slots && r'.nextId == r.nextId &&
        forall b :: 0 <= b < |r.apps| && b != a ==> r'.apps[b] == r.apps[b])
  {
  }

  /** Once an application has a main window, further windows do not replace it. */
  lemma MainWindowKept(r: Reg, wm: WmSpec.Wm, a: nat, t1: Option<seq<char>>, t2: Option<seq<char>>,
                       w1: u32, h1: u32, w2: u32, h2: u32, b1: bool, b2: bool)
    requires Wf(r) && WmSpec.Wf(wm) && a < |r.apps|
    ensures var (r1, wm1, id1) := CreateWindow(r, wm, Some(a), t1, w1, h1, b1);
      var (r2, wm2, id2) := CreateWindow(r1, wm1, Some(a), t2, w2, h2, b2);
      r2.apps[a].mainWindowId == (if r.apps[a].mainWindowId != 0 then r.apps[a].mainWindowId
                                  else if id1 != 0 then id1 else id2)
  {
  }
}
