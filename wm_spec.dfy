/**
 * The window manager of gui/window.c as values: a table of MAX_WINDOWS
 * slots (a slot is free while its id is 0), the next window id, the
 * focused window's id and the initialised flag, with one function per
 * operation. Whether pmm_alloc could give a window its pixel buffer is a
 * parameter of window creation; what the buffer holds and every drawing
 * operation are not modelled.
 */
module WmSpec {
  import opened Machine
  import opened Wrappers

  const MAX_WINDOWS: int := 64
  const WINDOW_TITLE_MAX: int := 256

  /** window_state_t. */
  const STATE_NORMAL: int := 0
  const STATE_MINIMIZED: int := 1

  /**
   * A window's 32-bit flags word is kept as the set of its bits that are
   * set; each WINDOW_FLAG_* constant is the bit number below (RESIZABLE is
   * 1 << 0 ... FOCUSED is 1 << 5), so `flags | F` is adding F, `flags & ~F`
   * removing it and `flags & F` a membership test.
   */
  type FlagWord = s: set<nat> | forall b | b in s :: b < 32

  const FLAG_RESIZABLE: nat := 0
  const FLAG_CLOSABLE: nat := 1
  const FLAG_MINIMIZABLE: nat := 2
  const FLAG_MAXIMIZABLE: nat := 3
  const FLAG_VISIBLE: nat := 4
  const FLAG_FOCUSED: nat := 5

  const UNTITLED: seq<char> := "Untitled Window"

  /** window_t; hasBuffer says whether buffer is non-NULL. */
  datatype Window = Window(id: u32, x: u32, y: u32, width: u32, height: u32, z: u32, state: int,
                           flags: FlagWord, title: seq<char>, hasBuffer: bool, needsRedraw: bool, ownerPid: u32)

  /** windows, next_window_id, focused_window and wm_initialized. */
  datatype Wm = Wm(windows: seq<Window>, nextId: u32, focused: u32, initialized: bool)

  const EMPTY_WINDOW: Window := Window(0, 0, 0, 0, 0, 0, 0, {}, [], false, false, 0)

  predicate Wf(wm: Wm)
  {
    |wm.windows| == MAX_WINDOWS
  }

  predicate Has(flags: FlagWord, bit: nat)
  {
    bit in flags
  }

  predicate Live(w: Window)
  {
    w.id != 0
  }

  /** The statics before wm_init. */
  function Empty(): (r: Wm)
    ensures Wf(r)
  {
    Wm(seq(MAX_WINDOWS, _ => EMPTY_WINDOW), 1, 0, false)
  }

  /** wm_init: all slots free, ids from 1, nothing focused. */
  function Init(wm: Wm): (r: Wm)
    ensures Wf(r)
  {
    Wm(seq(MAX_WINDOWS, _ => EMPTY_WINDOW), 1, 0, true)
  }

  // ---------------------------------------------------------------------
  // Lookups

  /** The first slot from `from` on whose id is id. */
  function FindFrom(ws: seq<Window>, id: u32, from: nat): (r: Option<nat>)
    decreases |ws| - from
    ensures r.Some? ==> from <= r.value < |ws| && ws[r.value].id == id &&
                        forall j :: from <= j < r.value ==> ws[j].id != id
    ensures r.None? <==> forall j :: from <= j < |ws| ==> ws[j].id != id
  {
    if from >= |ws| then None
    else if ws[from].id == id then Some(from)
    else FindFrom(ws, id, from + 1)
  }

  /** wm_get_window(id): the first slot with that id (id 0: the first free slot). */
  function Get(ws: seq<Window>, id: u32): (r: Option<nat>)
    ensures r.Some? ==> r.value < |ws| && ws[r.value].id == id && forall j :: 0 <= j < r.value ==> ws[j].id != id
    ensures r.None? <==> forall j :: 0 <= j < |ws| ==> ws[j].id != id
  {
    FindFrom(ws, id, 0)
  }

  /** The highest z_order of a live window among the first n slots, 0 when there is none. */
  function MaxZ(ws: seq<Window>, n: nat): (r: u32)
    requires n <= |ws|
    ensures forall j :: 0 <= j < n && Live(ws[j]) ==> ws[j].z <= r
    ensures r == 0 || exists j :: 0 <= j < n && Live(ws[j]) && ws[j].z == r
  {
    if n == 0 then 0
    else
      var m := MaxZ(ws, n - 1);
      if Live(ws[n - 1]) && ws[n - 1].z > m then ws[n - 1].z else m
  }

  /** The first live, visible slot from `from` on: where focus goes after the focused window is destroyed. */
  function FirstVisible(ws: seq<Window>, from: nat): (r: Option<nat>)
    decreases |ws| - from
    ensures r.Some? ==> from <= r.value < |ws| && Live(ws[r.value]) && Has(ws[r.value].flags, FLAG_VISIBLE) &&
                        forall j :: from <= j < r.value ==> !Live(ws[j]) || !Has(ws[j].flags, FLAG_VISIBLE)
    ensures r.None? <==> forall j :: from <= j < |ws| ==> !Live(ws[j]) || !Has(ws[j].flags, FLAG_VISIBLE)
  {
    if from >= |ws| then None
    else if Live(ws[from]) && Has(ws[from].flags, FLAG_VISIBLE) then Some(from)
    else FirstVisible(ws, from + 1)
  }

  // ---------------------------------------------------------------------
  // Operations

  /** The slot of the window that has the focus, if any. */
  function FocusedSlot(wm: Wm): (r: Option<nat>)
    ensures r.Some? ==> r.value < |wm.windows| && wm.windows[r.value].id == wm.focused && wm.focused != 0
  {
    if wm.focused != 0 then Get(wm.windows, wm.focused) else None
  }

  /** flags | WINDOW_FLAG_VISIBLE. */
  function WithVisible(f: FlagWord): (r: FlagWord)
    ensures Has(r, FLAG_VISIBLE) && r - {FLAG_VISIBLE} == f - {FLAG_VISIBLE}
  {
    f + {FLAG_VISIBLE}
  }

  /** flags & ~WINDOW_FLAG_VISIBLE. */
  function WithoutVisible(f: FlagWord): (r: FlagWord)
    ensures !Has(r, FLAG_VISIBLE) && r - {FLAG_VISIBLE} == f - {FLAG_VISIBLE}
  {
    f - {FLAG_VISIBLE}
  }

  /** flags | WINDOW_FLAG_FOCUSED. */
  function WithFocused(f: FlagWord): (r: FlagWord)
    ensures Has(r, FLAG_FOCUSED) && r - {FLAG_FOCUSED} == f - {FLAG_FOCUSED}
  {
    f + {FLAG_FOCUSED}
  }

  /** flags & ~WINDOW_FLAG_FOCUSED. */
  function WithoutFocused(f: FlagWord): (r: FlagWord)
    ensures !Has(r, FLAG_FOCUSED) && r - {FLAG_FOCUSED} == f - {FLAG_FOCUSED}
  {
    f - {FLAG_FOCUSED}
  }

  /** The table after the focus flags of wm_focus_window move to slot t, both windows marked for redraw. */
  function MoveFocus(wm: Wm, t: nat): (r: seq<Window>)
    requires Wf(wm) && t < MAX_WINDOWS
    ensures |r| == MAX_WINDOWS
  {
    var prev := FocusedSlot(wm);
    var ws1 := if prev.Some? then wm.windows[prev.value := wm.windows[prev.value].(flags := WithoutFocused(wm.windows[prev.value].flags), needsRedraw := true)]
               else wm.windows;
    ws1[t := ws1[t].(flags := WithFocused(ws1[t].flags), needsRedraw := true)]
  }

  /** wm_focus_window(id): the previous window loses FOCUSED, the target gains it and goes one above the highest z_order. */
  function Focus(wm: Wm, id: u32): (r: Wm)
    requires Wf(wm)
    ensures Wf(r)
  {
    var target := Get(wm.windows, id);
    if target.None? then wm
    else
      var t := target.value;
      var ws := MoveFocus(wm, t);
      wm.(windows := ws[t := ws[t].(z := Wrap32(MaxZ(ws, MAX_WINDOWS) as int + 1))], focused := id)
  }

  /** The title wm_create_window stores: at most 255 characters, or "Untitled Window" without one. */
  function Title(title: Option<seq<char>>): (r: seq<char>)
    ensures |r| < WINDOW_TITLE_MAX
  {
    if title.None? then UNTITLED
    else if |title.value| < WINDOW_TITLE_MAX then title.value
    else title.value[..WINDOW_TITLE_MAX - 1]
  }

  /**
   * wm_create_window(x, y, width, height, title, flags), with whether the
   * buffer could be allocated: 0 before wm_init or with every slot taken;
   * otherwise the first free slot gets the next id and is focused.
   */
  function Create(wm: Wm, x: u32, y: u32, width: u32, height: u32, title: Option<seq<char>>,
                  flags: FlagWord, gotBuffer: bool): (r: (Wm, u32))
    requires Wf(wm)
    ensures Wf(r.0)
  {
    if !wm.initialized || Get(wm.windows, 0).None? then (wm, 0)
    else (Focus(Placed(wm, x, y, width, height, title, flags, gotBuffer), wm.nextId), wm.nextId)
  }

  /** The window wm_create_window fills in: z_order is the incremented next_window_id, the flags gain VISIBLE. */
  function NewWindow(id: u32, x: u32, y: u32, width: u32, height: u32, title: Option<seq<char>>,
                     flags: FlagWord, gotBuffer: bool): (r: Window)
  {
    Window(id, x, y, width, height, Wrap32(id as int + 1), STATE_NORMAL, WithVisible(flags),
           Title(title), gotBuffer, true, 1)
  }

  /** The table once the new window is in the first free slot and next_window_id is incremented, before the focus moves. */
  function Placed(wm: Wm, x: u32, y: u32, width: u32, height: u32, title: Option<seq<char>>,
                  flags: FlagWord, gotBuffer: bool): (r: Wm)
    requires Wf(wm) && Get(wm.windows, 0).Some?
    ensures Wf(r)
  {
    var s := Get(wm.windows, 0).value;
    wm.(windows := wm.windows[s := NewWindow(wm.nextId, x, y, width, height, title, flags, gotBuffer)],
        nextId := Wrap32(wm.nextId as int + 1))
  }

  /** wm_destroy_window(id): the first slot with that id is cleared; if it had the focus, the first visible window gets it. */
  function Destroy(wm: Wm, id: u32): (r: Wm)
    requires Wf(wm)
    ensures Wf(r)
  {
    var slot := Get(wm.windows, id);
    if slot.None? then wm
    else
      var cleared := wm.(windows := wm.windows[slot.value := EMPTY_WINDOW]);
      if wm.focused != id then cleared
      else
        var unfocused := cleared.(focused := 0);
        var next := FirstVisible(unfocused.windows, 0);
        if next.None? then unfocused else Focus(unfocused, unfocused.windows[next.value].id)
  }

  /** wm_move_window. */
  function Move(wm: Wm, id: u32, x: u32, y: u32): (r: Wm)
    requires Wf(wm)
    ensures Wf(r)
  {
    var slot := Get(wm.windows, id);
    if slot.None? then wm
    else wm.(windows := wm.windows[slot.value := wm.windows[slot.value].(x := x, y := y, needsRedraw := true)])
  }

  /** wm_resize_window: only a RESIZABLE window changes size. */
  function Resize(wm: Wm, id: u32, width: u32, height: u32): (r: Wm)
    requires Wf(wm)
    ensures Wf(r)
  {
    var slot := Get(wm.windows, id);
    if slot.None? || !Has(wm.windows[slot.value].flags, FLAG_RESIZABLE) then wm
    else wm.(windows := wm.windows[slot.value := wm.windows[slot.value].(width := width, height := height, needsRedraw := true)])
  }

  /** wm_set_window_state: MINIMIZED hides the window, any other state shows it. */
  function SetState(wm: Wm, id: u32, state: int): (r: Wm)
    requires Wf(wm)
    ensures Wf(r)
  {
    var slot := Get(wm.windows, id);
    if slot.None? then wm
    else
      var w := wm.windows[slot.value];
      wm.(windows := wm.windows[slot.value := w.(state := state, needsRedraw := true,
                                                 flags := if state == STATE_MINIMIZED then WithoutVisible(w.flags) else WithVisible(w.flags))])
  }

  // ---------------------------------------------------------------------
  // Rendering order and hit testing

  /** The live slots in index order: wm_render_all's array before sorting. */
  function LiveSlots(ws: seq<Window>, n: nat): (r: seq<nat>)
    requires n <= |ws|
    ensures forall k :: 0 <= k < |r| ==> r[k] < n && Live(ws[r[k]])
    ensures forall j :: 0 <= j < n && Live(ws[j]) ==> j in r
    ensures forall p, q :: 0 <= p < q < |r| ==> r[p] < r[q]
  {
    if n == 0 then []
    else if Live(ws[n - 1]) then LiveSlots(ws, n - 1) + [n - 1]
    else LiveSlots(ws, n - 1)
  }

  /** Slot a comes before slot b: lower z_order, or the same z_order and a lower slot. */
  predicate Before(ws: seq<Window>, a: nat, b: nat)
    requires a < |ws| && b < |ws|
  {
    ws[a].z < ws[b].z || (ws[a].z == ws[b].z && a < b)
  }

  /** The order wm_render_all draws in: the live slots, back (low z_order) to front, ties in slot order. */
  predicate RenderOrder(ws: seq<Window>, order: seq<nat>)
  {
    (forall k :: 0 <= k < |order| ==> order[k] < |ws|) &&
    multiset(order) == multiset(LiveSlots(ws, |ws|)) &&
    forall p, q :: 0 <= p < q < |order| ==> Before(ws, order[p], order[q])
  }

  /** The point lies in the window, with the window's edges as wm_handle_mouse_click converts them to int. */
  predicate Contains(w: Window, x: int, y: int)
  {
    x >= AsInt32(w.x) && x < AsInt32(Wrap32(w.x + w.width)) &&
    y >= AsInt32(w.y) && y < AsInt32(Wrap32(w.y + w.height))
  }

  /** A window a left click can land on: live, visible, not minimised and containing the point. */
  predicate Clickable(w: Window, x: int, y: int)
  {
    Live(w) && Has(w.flags, FLAG_VISIBLE) && w.state != STATE_MINIMIZED && Contains(w, x, y)
  }

  /** The close box test of wm_handle_mouse_click. */
  predicate InCloseBox(w: Window, x: int, y: int)
  {
    Has(w.flags, FLAG_CLOSABLE) &&
    x >= AsInt32(Wrap32(w.x + w.width - 25)) && x < AsInt32(Wrap32(w.x + w.width - 5)) &&
    y >= AsInt32(Wrap32(w.y + 5)) && y < AsInt32(Wrap32(w.y + 25))
  }

  /** Which slots a left click at (x, y) can land on. */
  function Candidates(ws: seq<Window>, x: int, y: int): (r: seq<bool>)
    ensures |r| == |ws| && forall i :: 0 <= i < |ws| ==> r[i] == Clickable(ws[i], x, y)
  {
    seq(|ws|, i requires 0 <= i < |ws| => Clickable(ws[i], x, y))
  }

  /** The hit-test loop from slot i on, with the best candidate so far and its z_order: only a strictly higher z_order replaces it. */
  function HitFrom(ws: seq<Window>, c: seq<bool>, i: nat, best: Option<nat>, highest: u32): (r: Option<nat>)
    requires |c| == |ws| && (best.Some? ==> best.value < |ws|)
    decreases |ws| - i
    ensures r.Some? ==> r.value < |ws|
  {
    if i >= |ws| then best
    else if c[i] && ws[i].z > highest then HitFrom(ws, c, i + 1, Some(i), ws[i].z)
    else HitFrom(ws, c, i + 1, best, highest)
  }

  /** The window a left click at (x, y) selects. */
  function Hit(ws: seq<Window>, x: int, y: int): (r: Option<nat>)
    ensures r.Some? ==> r.value < |ws|
  {
    HitFrom(ws, Candidates(ws, x, y), 0, None, 0)
  }

  /** wm_handle_mouse_click: a left click destroys the window hit in its close box, and focuses it otherwise. */
  function Click(wm: Wm, x: int, y: int, left: bool): (r: Wm)
    requires Wf(wm)
    ensures Wf(r)
  {
    if !left then wm
    else
      var hit := Hit(wm.windows, x, y);
      if hit.None? then wm
      else
        var w := wm.windows[hit.value];
        if InCloseBox(w, x, y) then Destroy(wm, w.id) else Focus(wm, w.id)
  }

  /** wm_render_window draws a visible, not minimised window and clears its redraw mark. */
  function Drawn(w: Window): (r: Window)
    ensures r.(needsRedraw := false) == w.(needsRedraw := false)
  {
    if Has(w.flags, FLAG_VISIBLE) && w.state != STATE_MINIMIZED then w.(needsRedraw := false) else w
  }

  /** What wm_render_all leaves behind: every live window drawn. */
  function Rendered(ws: seq<Window>): (r: seq<Window>)
    ensures |r| == |ws|
  {
    seq(|ws|, i requires 0 <= i < |ws| => if Live(ws[i]) then Drawn(ws[i]) else ws[i])
  }

  /** The slots listed in order are in the table. */
  predicate InTable(ws: seq<Window>, order: seq<nat>)
  {
    forall k :: 0 <= k < |order| ==> order[k] < |ws|
  }

  /** Every listed slot at position lo or later has a z_order no lower than any slot listed before it. */
  predicate ZSortedFrom(ws: seq<Window>, order: seq<nat>, lo: int)
    requires InTable(ws, order)
  {
    forall p, q :: 0 <= p < q < |order| && lo <= q ==> ws[order[p]].z <= ws[order[q]].z
  }

  /** Listed slots with equal z_order are in slot order: the bubble sort's swaps on a strict > keep them so. */
  predicate Stable(ws: seq<Window>, order: seq<nat>)
    requires InTable(ws, order)
  {
    forall p, q :: 0 <= p < q < |order| && ws[order[p]].z == ws[order[q]].z ==> order[p] < order[q]
  }

  /** A listing of the live slots sorted by z_order, with ties in slot order, is the render order. */
  lemma SortedIsRenderOrder(ws: seq<Window>, order: seq<nat>)
    requires InTable(ws, order) && multiset(order) == multiset(LiveSlots(ws, |ws|))
    requires ZSortedFrom(ws, order, 0) && Stable(ws, order)
    ensures RenderOrder(ws, order)
  {
  }

  /** No slot listed before position j has a higher z_order than the one at j. */
  predicate PrefixBelow(ws: seq<Window>, order: seq<nat>, j: nat)
    requires InTable(ws, order) && j < |order|
  {
    forall p :: 0 <= p < j ==> ws[order[p]].z <= ws[order[j]].z
  }

  /** One compare-and-swap of the bubble sort at j, below the sorted tail from hi on, keeps every invariant and moves the maximum to j + 1. */
  lemma BubbleStep(ws: seq<Window>, a: seq<nat>, j: nat, hi: int)
    requires InTable(ws, a) && j + 1 < hi <= |a| && Stable(ws, a) && ZSortedFrom(ws, a, hi) && PrefixBelow(ws, a, j)
    ensures var b := if ws[a[j]].z > ws[a[j + 1]].z then a[j := a[j + 1]][j + 1 := a[j]] else a;
      |b| == |a| && multiset(b) == multiset(a) && InTable(ws, b) && Stable(ws, b) &&
      ZSortedFrom(ws, b, hi) && PrefixBelow(ws, b, j + 1)
  {
    if ws[a[j]].z > ws[a[j + 1]].z {
      SwapStable(ws, a, j);
      var b := a[j := a[j + 1]][j + 1 := a[j]];
      assert forall k :: 0 <= k < |a| && k != j && k != j + 1 ==> b[k] == a[k];
    }
  }

  /** At the end of a bubble-sort pass the sorted tail grows by one: from hi - 1 on. */
  lemma PassDone(ws: seq<Window>, a: seq<nat>, hi: int)
    requires InTable(ws, a) && 1 <= hi <= |a| && ZSortedFrom(ws, a, hi) && PrefixBelow(ws, a, hi - 1)
    ensures ZSortedFrom(ws, a, hi - 1)
  {
  }

  /** A render order lists exactly the live slots. */
  lemma RenderOrderCovers(ws: seq<Window>, order: seq<nat>)
    requires RenderOrder(ws, order)
    ensures forall m :: 0 <= m < |ws| ==> (m in order <==> Live(ws[m]))
  {
    forall m | 0 <= m < |ws|
      ensures m in order <==> Live(ws[m])
    {
      assert m in order <==> m in multiset(order);
      assert m in LiveSlots(ws, |ws|) <==> m in multiset(LiveSlots(ws, |ws|));
    }
  }

  /** Swapping two neighbours whose z_order is out of order keeps equal z_orders in slot order. */
  lemma SwapStable(ws: seq<Window>, order: seq<nat>, j: nat)
    requires InTable(ws, order) && Stable(ws, order) && j + 1 < |order| && ws[order[j]].z > ws[order[j + 1]].z
    ensures var b := order[j := order[j + 1]][j + 1 := order[j]]; InTable(ws, b) && Stable(ws, b)
  {
    var b := order[j := order[j + 1]][j + 1 := order[j]];
    forall p, q | 0 <= p < q < |b| && ws[b[p]].z == ws[b[q]].z
      ensures b[p] < b[q]
    {
      var p' := if p == j then j + 1 else if p == j + 1 then j else p;
      var q' := if q == j then j + 1 else if q == j + 1 then j else q;
      assert b[p] == order[p'] && b[q] == order[q'];
      assert p' < q';
    }
  }

  // ---------------------------------------------------------------------
  // Properties

  /** Window ids are handed out in increasing order: next_window_id is above every live id, and no two live windows share one. */
  predicate IdsOk(wm: Wm)
  {
    wm.nextId >= 1 &&
    (forall i :: 0 <= i < |wm.windows| && Live(wm.windows[i]) ==> wm.windows[i].id < wm.nextId) &&
    forall i, j :: 0 <= i < j < |wm.windows| && Live(wm.windows[i]) ==> wm.windows[i].id != wm.windows[j].id
  }

  /** Slot t is strictly above every other live window. */
  predicate Topmost(ws: seq<Window>, t: nat)
    requires t < |ws|
  {
    forall i :: 0 <= i < |ws| && i != t && Live(ws[i]) ==> ws[i].z < ws[t].z
  }

  /** wm_init leaves every slot free, ids starting at 1 and nothing focused. */
  lemma InitOutcome(wm: Wm, id: u32)
    ensures var r := Init(wm);
      r.initialized && r.focused == 0 && r.nextId == 1 && IdsOk(r) &&
      (Get(r.windows, id).Some? <==> id == 0) && Hit(r.windows, 0, 0).None?
  {
    var r := Init(wm);
    if id == 0 {
      assert r.windows[0].id == 0;
    }
    HitTopmost(r.windows, 0, 0);
  }

  /** wm_focus_window on a missing id changes nothing. */
  lemma FocusMissing(wm: Wm, id: u32)
    requires Wf(wm) && Get(wm.windows, id).None?
    ensures Focus(wm, id) == wm
  {
  }

  /**
   * wm_focus_window(id) on the window in slot t: it becomes focused_window
   * and gains FOCUSED, and the previously focused window, in another slot,
   * loses FOCUSED; both are marked for redraw.
   */
  lemma FocusFlags(wm: Wm, id: u32)
    requires Wf(wm) && Get(wm.windows, id).Some?
    ensures var t := Get(wm.windows, id).value;
      var prev := FocusedSlot(wm);
      var r := Focus(wm, id);
      r.focused == id && r.nextId == wm.nextId && r.initialized == wm.initialized &&
      Has(r.windows[t].flags, FLAG_FOCUSED) && r.windows[t].needsRedraw &&
      (prev.Some? && prev.value != t ==> !Has(r.windows[prev.value].flags, FLAG_FOCUSED) && r.windows[prev.value].needsRedraw)
  {
  }

  /** Of its target, wm_focus_window changes only the flags, the redraw mark and z_order ... */
  lemma FocusTarget(wm: Wm, id: u32)
    requires Wf(wm) && Get(wm.windows, id).Some?
    ensures var t := Get(wm.windows, id).value;
      Focus(wm, id).windows[t].(flags := {}, needsRedraw := false, z := 0) == wm.windows[t].(flags := {}, needsRedraw := false, z := 0)
  {
    var t := Get(wm.windows, id).value;
    var prev := FocusedSlot(wm);
    var ws1 := if prev.Some? then wm.windows[prev.value := wm.windows[prev.value].(flags := WithoutFocused(wm.windows[prev.value].flags), needsRedraw := true)]
               else wm.windows;
    assert ws1[t].(flags := {}, needsRedraw := false) == wm.windows[t].(flags := {}, needsRedraw := false);
  }

  /** ... and of the flags only FOCUSED. */
  lemma FocusTargetFlags(wm: Wm, id: u32)
    requires Wf(wm) && Get(wm.windows, id).Some?
    ensures var t := Get(wm.windows, id).value;
      Focus(wm, id).windows[t].flags - {FLAG_FOCUSED} == wm.windows[t].flags - {FLAG_FOCUSED}
  {
    var t := Get(wm.windows, id).value;
    var prev := FocusedSlot(wm);
    if prev.Some? && prev.value == t {
      var f := WithoutFocused(wm.windows[t].flags);
      assert f - {FLAG_FOCUSED} == wm.windows[t].flags - {FLAG_FOCUSED};
      assert WithFocused(f) - {FLAG_FOCUSED} == f - {FLAG_FOCUSED};
    }
  }

  /** Moving the focus flags changes no id and no z_order. */
  lemma MoveFocusKeeps(wm: Wm, t: nat)
    requires Wf(wm) && t < MAX_WINDOWS
    ensures forall i :: 0 <= i < MAX_WINDOWS ==> MoveFocus(wm, t)[i].id == wm.windows[i].id && MoveFocus(wm, t)[i].z == wm.windows[i].z
  {
    var prev := FocusedSlot(wm);
    var ws1 := if prev.Some? then wm.windows[prev.value := wm.windows[prev.value].(flags := WithoutFocused(wm.windows[prev.value].flags), needsRedraw := true)]
               else wm.windows;
    assert forall i :: 0 <= i < MAX_WINDOWS ==> ws1[i].id == wm.windows[i].id && ws1[i].z == wm.windows[i].z;
  }

  /** wm_focus_window changes no id, no other window's z_order, and no window but the two whose focus changes. */
  lemma FocusFrame(wm: Wm, id: u32)
    requires Wf(wm) && Get(wm.windows, id).Some?
    ensures var t := Get(wm.windows, id).value;
      var prev := FocusedSlot(wm);
      var r := Focus(wm, id);
      (forall i :: 0 <= i < MAX_WINDOWS ==> r.windows[i].id == wm.windows[i].id) &&
      (forall i :: 0 <= i < MAX_WINDOWS && i != t ==> r.windows[i].z == wm.windows[i].z) &&
      (forall i :: 0 <= i < MAX_WINDOWS && i != t && (prev.None? || i != prev.value) ==> r.windows[i] == wm.windows[i])
  {
    MoveFocusKeeps(wm, Get(wm.windows, id).value);
  }

  /** Unless the highest z_order is already the largest 32-bit value, wm_focus_window puts its target strictly on top. */
  lemma FocusTopmost(wm: Wm, id: u32)
    requires Wf(wm) && Get(wm.windows, id).Some? && MaxZ(wm.windows, MAX_WINDOWS) as int + 1 < U32_LIMIT
    ensures Topmost(Focus(wm, id).windows, Get(wm.windows, id).value)
  {
    var t := Get(wm.windows, id).value;
    var ws := MoveFocus(wm, t);
    var top := MaxZ(ws, MAX_WINDOWS);
    MoveFocusKeeps(wm, t);
    assert top <= MaxZ(wm.windows, MAX_WINDOWS) by {
      if top != 0 {
        var j :| 0 <= j < MAX_WINDOWS && Live(ws[j]) && ws[j].z == top;
        assert Live(wm.windows[j]);
      }
    }
  }

  /** wm_focus_window keeps the ids unique. */
  lemma FocusKeepsIds(wm: Wm, id: u32)
    requires Wf(wm) && IdsOk(wm)
    ensures IdsOk(Focus(wm, id))
  {
    if Get(wm.windows, id).Some? {
      FocusFrame(wm, id);
    }
  }

  /** wm_create_window returns 0 and changes nothing before wm_init or when every slot is taken, and otherwise returns next_window_id. */
  lemma CreateResult(wm: Wm, x: u32, y: u32, width: u32, height: u32, title: Option<seq<char>>,
                     flags: FlagWord, gotBuffer: bool)
    requires Wf(wm)
    ensures var (r, id) := Create(wm, x, y, width, height, title, flags, gotBuffer);
      (!wm.initialized || Get(wm.windows, 0).None? ==> r == wm && id == 0) &&
      (wm.initialized && Get(wm.windows, 0).Some? ==> id == wm.nextId && r.nextId == Wrap32(id as int + 1))
  {
    if wm.initialized && Get(wm.windows, 0).Some? {
      var placed := Placed(wm, x, y, width, height, title, flags, gotBuffer);
      assert placed.windows[Get(wm.windows, 0).value].id == wm.nextId;
      FocusFlags(placed, wm.nextId);
    }
  }

  /** With unique ids, the new window is found under its id in the first free slot, which it alone changes. */
  lemma PlacedFound(wm: Wm, x: u32, y: u32, width: u32, height: u32, title: Option<seq<char>>,
                    flags: FlagWord, gotBuffer: bool)
    requires Wf(wm) && IdsOk(wm) && Get(wm.windows, 0).Some?
    ensures Get(Placed(wm, x, y, width, height, title, flags, gotBuffer).windows, wm.nextId) == Get(wm.windows, 0)
  {
    var s := Get(wm.windows, 0).value;
    var ws := Placed(wm, x, y, width, height, title, flags, gotBuffer).windows;
    assert ws[s].id == wm.nextId;
    assert forall j :: 0 <= j < s ==> ws[j].id != wm.nextId by {
      assert forall j :: 0 <= j < s ==> ws[j] == wm.windows[j] && Live(wm.windows[j]);
    }
  }

  /** A successful wm_create_window fills the lowest free slot with a NORMAL window with the given geometry and title ... */
  lemma CreateWindow(wm: Wm, x: u32, y: u32, width: u32, height: u32, title: Option<seq<char>>,
                     flags: FlagWord, gotBuffer: bool)
    requires Wf(wm) && IdsOk(wm) && wm.initialized && Get(wm.windows, 0).Some?
    ensures var w := Create(wm, x, y, width, height, title, flags, gotBuffer).0.windows[Get(wm.windows, 0).value];
      w.id == wm.nextId && w.x == x && w.y == y && w.width == width && w.height == height &&
      w.state == STATE_NORMAL && w.title == Title(title) && w.hasBuffer == gotBuffer && w.ownerPid == 1
  {
    var placed := Placed(wm, x, y, width, height, title, flags, gotBuffer);
    PlacedFound(wm, x, y, width, height, title, flags, gotBuffer);
    FocusTarget(placed, wm.nextId);
  }

  /** ... whose flags are the given ones with VISIBLE and FOCUSED set. */
  lemma CreateFlags(wm: Wm, x: u32, y: u32, width: u32, height: u32, title: Option<seq<char>>,
                    flags: FlagWord, gotBuffer: bool)
    requires Wf(wm) && IdsOk(wm) && wm.initialized && Get(wm.windows, 0).Some?
    ensures var w := Create(wm, x, y, width, height, title, flags, gotBuffer).0.windows[Get(wm.windows, 0).value];
      w.flags - {FLAG_VISIBLE, FLAG_FOCUSED} == flags - {FLAG_VISIBLE, FLAG_FOCUSED} &&
      Has(w.flags, FLAG_VISIBLE) && Has(w.flags, FLAG_FOCUSED)
  {
    var s := Get(wm.windows, 0).value;
    var placed := Placed(wm, x, y, width, height, title, flags, gotBuffer);
    PlacedFound(wm, x, y, width, height, title, flags, gotBuffer);
    FocusFlags(placed, wm.nextId);
    FocusTargetFlags(placed, wm.nextId);
  }

  /** The new window has the focus and is found under the returned id, which is above every other live id. */
  lemma CreateFocused(wm: Wm, x: u32, y: u32, width: u32, height: u32, title: Option<seq<char>>,
                      flags: FlagWord, gotBuffer: bool)
    requires Wf(wm) && IdsOk(wm) && wm.initialized && Get(wm.windows, 0).Some?
    ensures var (r, id) := Create(wm, x, y, width, height, title, flags, gotBuffer);
      var s := Get(wm.windows, 0).value;
      id != 0 && r.focused == id && Get(r.windows, id) == Some(s) &&
      (forall i :: 0 <= i < MAX_WINDOWS && i != s && Live(r.windows[i]) ==> r.windows[i].id < id)
  {
    var s := Get(wm.windows, 0).value;
    var placed := Placed(wm, x, y, width, height, title, flags, gotBuffer);
    var r := Focus(placed, wm.nextId);
    PlacedFound(wm, x, y, width, height, title, flags, gotBuffer);
    FocusFlags(placed, wm.nextId);
    FocusFrame(placed, wm.nextId);
    assert Get(r.windows, wm.nextId) == Some(s) by {
      assert forall j :: 0 <= j < s ==> r.windows[j].id == placed.windows[j].id;
    }
  }

  /** While neither next_window_id nor the highest z_order is about to wrap, the new window ends on top. */
  lemma CreateOnTop(wm: Wm, x: u32, y: u32, width: u32, height: u32, title: Option<seq<char>>,
                    flags: FlagWord, gotBuffer: bool)
    requires Wf(wm) && IdsOk(wm) && wm.initialized && Get(wm.windows, 0).Some?
    requires wm.nextId as int + 2 < U32_LIMIT && MaxZ(wm.windows, MAX_WINDOWS) as int + 1 < U32_LIMIT
    ensures Topmost(Create(wm, x, y, width, height, title, flags, gotBuffer).0.windows, Get(wm.windows, 0).value)
  {
    var s := Get(wm.windows, 0).value;
    var placed := Placed(wm, x, y, width, height, title, flags, gotBuffer);
    PlacedFound(wm, x, y, width, height, title, flags, gotBuffer);
    assert MaxZ(placed.windows, MAX_WINDOWS) as int + 1 < U32_LIMIT by {
      var top := MaxZ(placed.windows, MAX_WINDOWS);
      if top != 0 {
        var j :| 0 <= j < MAX_WINDOWS && Live(placed.windows[j]) && placed.windows[j].z == top;
        if j != s {
          assert Live(wm.windows[j]) && wm.windows[j].z == top;
        }
      }
    }
    FocusTopmost(placed, wm.nextId);
  }

  /** wm_create_window keeps the ids unique until next_window_id would wrap. */
  lemma CreateKeepsIds(wm: Wm, x: u32, y: u32, width: u32, height: u32, title: Option<seq<char>>,
                       flags: FlagWord, gotBuffer: bool)
    requires Wf(wm) && IdsOk(wm) && wm.nextId as int + 1 < U32_LIMIT
    ensures IdsOk(Create(wm, x, y, width, height, title, flags, gotBuffer).0)
  {
    if wm.initialized && Get(wm.windows, 0).Some? {
      var s := Get(wm.windows, 0).value;
      var placed := Placed(wm, x, y, width, height, title, flags, gotBuffer);
      assert forall i :: 0 <= i < MAX_WINDOWS && i != s ==> placed.windows[i] == wm.windows[i];
      assert IdsOk(placed);
      FocusKeepsIds(placed, wm.nextId);
    }
  }

  /** wm_destroy_window on an unknown id changes nothing. */
  lemma DestroyMissing(wm: Wm, id: u32)
    requires Wf(wm) && Get(wm.windows, id).None?
    ensures Destroy(wm, id) == wm
  {
  }

  /** wm_destroy_window(id) clears the first slot with the id; when the window did not have the focus nothing else changes. */
  lemma DestroyOutcome(wm: Wm, id: u32)
    requires Wf(wm) && Get(wm.windows, id).Some?
    ensures var s := Get(wm.windows, id).value;
      var cleared := wm.windows[s := EMPTY_WINDOW];
      var r := Destroy(wm, id);
      r.windows[s] == EMPTY_WINDOW && r.nextId == wm.nextId && r.initialized == wm.initialized &&
      (forall i :: 0 <= i < MAX_WINDOWS ==> r.windows[i].id == cleared[i].id) &&
      (wm.focused != id ==> r.windows == cleared && r.focused == wm.focused)
  {
    var s := Get(wm.windows, id).value;
    var unfocused := wm.(windows := wm.windows[s := EMPTY_WINDOW], focused := 0);
    var next := FirstVisible(unfocused.windows, 0);
    if wm.focused == id && next.Some? {
      var target := unfocused.windows[next.value].id;
      assert Get(unfocused.windows, target).Some?;
      FocusFrame(unfocused, target);
      assert s != Get(unfocused.windows, target).value && FocusedSlot(unfocused).None?;
    }
  }

  /**
   * When the destroyed window had the focus, focus passes to the
   * lowest-index visible window left, which gains FOCUSED, or to nobody
   * when there is none.
   */
  lemma DestroyRefocus(wm: Wm, id: u32)
    requires Wf(wm) && Get(wm.windows, id).Some? && wm.focused == id
    ensures var cleared := wm.windows[Get(wm.windows, id).value := EMPTY_WINDOW];
      var next := FirstVisible(cleared, 0);
      var r := Destroy(wm, id);
      (next.None? ==> r.windows == cleared && r.focused == 0) &&
      (next.Some? ==> r.focused == cleared[next.value].id && r.focused != 0 &&
                      Get(r.windows, r.focused).Some? && Has(r.windows[Get(r.windows, r.focused).value].flags, FLAG_FOCUSED))
  {
    var s := Get(wm.windows, id).value;
    var unfocused := wm.(windows := wm.windows[s := EMPTY_WINDOW], focused := 0);
    var next := FirstVisible(unfocused.windows, 0);
    if next.Some? {
      var target := unfocused.windows[next.value].id;
      assert Get(unfocused.windows, target).Some?;
      FocusFinds(unfocused, target);
    }
  }

  /** After wm_focus_window(id) on a window that exists, wm_get_window(id) finds it in the same slot, now FOCUSED. */
  lemma FocusFinds(wm: Wm, id: u32)
    requires Wf(wm) && Get(wm.windows, id).Some?
    ensures var r := Focus(wm, id);
      r.focused == id && Get(r.windows, id) == Get(wm.windows, id) && Has(r.windows[Get(wm.windows, id).value].flags, FLAG_FOCUSED)
  {
    FocusFlags(wm, id);
    FocusFrame(wm, id);
    var r := Focus(wm, id);
    var t := Get(wm.windows, id).value;
    assert forall j :: 0 <= j < t ==> r.windows[j].id != id;
  }

  /** With unique ids, wm_destroy_window(id) removes the window with that id and keeps the others' ids unique. */
  lemma DestroyRemoves(wm: Wm, id: u32)
    requires Wf(wm) && IdsOk(wm) && id != 0
    ensures Get(Destroy(wm, id).windows, id).None? && IdsOk(Destroy(wm, id))
  {
    if Get(wm.windows, id).Some? {
      DestroyOutcome(wm, id);
      var s := Get(wm.windows, id).value;
      var cleared := wm.windows[s := EMPTY_WINDOW];
      var r := Destroy(wm, id);
      assert forall i :: 0 <= i < MAX_WINDOWS ==> r.windows[i].id != id by {
        assert forall i :: 0 <= i < MAX_WINDOWS && i != s ==> wm.windows[i].id != id;
      }
    }
  }

  /** wm_move_window moves the one window found and marks it for redraw; no other window and nothing else of it changes. */
  lemma MoveOutcome(wm: Wm, id: u32, x: u32, y: u32)
    requires Wf(wm)
    ensures var r := Move(wm, id, x, y);
      r.focused == wm.focused && r.nextId == wm.nextId && r.initialized == wm.initialized &&
      (Get(wm.windows, id).None? ==> r == wm) &&
      (Get(wm.windows, id).Some? ==>
        var s := Get(wm.windows, id).value;
        r.windows[s].x == x && r.windows[s].y == y && r.windows[s].needsRedraw &&
        r.windows[s].(x := 0, y := 0, needsRedraw := false) == wm.windows[s].(x := 0, y := 0, needsRedraw := false) &&
        forall i :: 0 <= i < MAX_WINDOWS && i != s ==> r.windows[i] == wm.windows[i])
  {
  }

  /** wm_resize_window resizes the one window found when it is RESIZABLE, and otherwise changes nothing. */
  lemma ResizeOutcome(wm: Wm, id: u32, width: u32, height: u32)
    requires Wf(wm)
    ensures var r := Resize(wm, id, width, height);
      r.focused == wm.focused && r.nextId == wm.nextId && r.initialized == wm.initialized &&
      (Get(wm.windows, id).None? || !Has(wm.windows[Get(wm.windows, id).value].flags, FLAG_RESIZABLE) ==> r == wm) &&
      (Get(wm.windows, id).Some? && Has(wm.windows[Get(wm.windows, id).value].flags, FLAG_RESIZABLE) ==>
        var s := Get(wm.windows, id).value;
        r.windows[s].width == width && r.windows[s].height == height && r.windows[s].needsRedraw &&
        r.windows[s].(width := 0, height := 0, needsRedraw := false) == wm.windows[s].(width := 0, height := 0, needsRedraw := false) &&
        forall i :: 0 <= i < MAX_WINDOWS && i != s ==> r.windows[i] == wm.windows[i])
  {
  }

  /** wm_set_window_state sets the state of the one window found and makes it visible exactly when the state is not MINIMIZED. */
  lemma SetStateOutcome(wm: Wm, id: u32, state: int)
    requires Wf(wm)
    ensures var r := SetState(wm, id, state);
      r.focused == wm.focused && r.nextId == wm.nextId && r.initialized == wm.initialized &&
      (Get(wm.windows, id).None? ==> r == wm) &&
      (Get(wm.windows, id).Some? ==>
        var s := Get(wm.windows, id).value;
        var w := r.windows[s];
        w.state == state && w.needsRedraw &&
        (state == STATE_MINIMIZED ==> !Has(w.flags, FLAG_VISIBLE)) && (state != STATE_MINIMIZED ==> Has(w.flags, FLAG_VISIBLE)) &&
        w.flags - {FLAG_VISIBLE} == wm.windows[s].flags - {FLAG_VISIBLE} &&
        w.(state := 0, needsRedraw := false, flags := {}) == wm.windows[s].(state := 0, needsRedraw := false, flags := {}) &&
        forall i :: 0 <= i < MAX_WINDOWS && i != s ==> r.windows[i] == wm.windows[i])
  {
  }

  predicate HitInvariant(ws: seq<Window>, c: seq<bool>, i: nat, best: Option<nat>, highest: u32)
    requires |c| == |ws|
  {
    i <= |ws| &&
    (best.None? ==> highest == 0) &&
    (best.Some? ==> best.value < i && c[best.value] && ws[best.value].z == highest && highest > 0 &&
                    forall j :: 0 <= j < best.value && c[j] ==> ws[j].z < highest) &&
    forall j :: 0 <= j < i && c[j] ==> ws[j].z <= highest
  }

  /**
   * The hit test selects the clickable window with the highest z_order
   * (the lowest slot among equals), provided it is above 0; no window is
   * selected exactly when every clickable window has z_order 0.
   */
  lemma HitTopmost(ws: seq<Window>, x: int, y: int)
    ensures var r := Hit(ws, x, y);
      (r.None? <==> forall j :: 0 <= j < |ws| && Clickable(ws[j], x, y) ==> ws[j].z == 0) &&
      (r.Some? ==> Clickable(ws[r.value], x, y) && ws[r.value].z > 0 &&
                   (forall j :: 0 <= j < |ws| && Clickable(ws[j], x, y) ==> ws[j].z <= ws[r.value].z) &&
                   (forall j :: 0 <= j < r.value && Clickable(ws[j], x, y) ==> ws[j].z < ws[r.value].z))
  {
    HitFromTopmost(ws, Candidates(ws, x, y), 0, None, 0);
  }

  lemma {:induction false} HitFromTopmost(ws: seq<Window>, c: seq<bool>, i: nat, best: Option<nat>, highest: u32)
    requires |c| == |ws| && HitInvariant(ws, c, i, best, highest)
    ensures var r := HitFrom(ws, c, i, best, highest);
      (r.None? ==> forall j :: 0 <= j < |ws| && c[j] ==> ws[j].z == 0) &&
      (r.Some? ==> c[r.value] && ws[r.value].z > 0 &&
                   (forall j :: 0 <= j < |ws| && c[j] ==> ws[j].z <= ws[r.value].z) &&
                   (forall j :: 0 <= j < r.value && c[j] ==> ws[j].z < ws[r.value].z))
    decreases |ws| - i
  {
    if i < |ws| {
      if c[i] && ws[i].z > highest {
        HitFromTopmost(ws, c, i + 1, Some(i), ws[i].z);
      } else {
        HitFromTopmost(ws, c, i + 1, best, highest);
      }
    }
  }

  /**
   * wm_handle_mouse_click with unique ids: a click that is not with the left
   * button or hits no window changes nothing; a left click on the hit
   * window's close box removes that window; a left click anywhere else on
   * it gives it the focus and, unless the highest z_order is already the
   * largest 32-bit value, puts it strictly on top. Ids stay unique.
   */
  lemma ClickEffect(wm: Wm, x: int, y: int, left: bool)
    requires Wf(wm) && IdsOk(wm)
    ensures var hit := Hit(wm.windows, x, y);
      var r := Click(wm, x, y, left);
      IdsOk(r) &&
      (!left || hit.None? ==> r == wm) &&
      (left && hit.Some? ==>
        var w := wm.windows[hit.value];
        (InCloseBox(w, x, y) ==> Get(r.windows, w.id).None?) &&
        (!InCloseBox(w, x, y) ==>
          r.focused == w.id && Get(r.windows, w.id) == hit && Has(r.windows[hit.value].flags, FLAG_FOCUSED) &&
          (MaxZ(wm.windows, MAX_WINDOWS) as int + 1 < U32_LIMIT ==> Topmost(r.windows, hit.value))))
  {
    var hit := Hit(wm.windows, x, y);
    HitTopmost(wm.windows, x, y);
    if left && hit.Some? {
      var w := wm.windows[hit.value];
      assert Get(wm.windows, w.id) == hit by {
        assert forall j :: 0 <= j < hit.value ==> wm.windows[j].id != w.id;
      }
      if InCloseBox(w, x, y) {
        DestroyRemoves(wm, w.id);
      } else {
        FocusFinds(wm, w.id);
        FocusKeepsIds(wm, w.id);
        if MaxZ(wm.windows, MAX_WINDOWS) as int + 1 < U32_LIMIT {
          FocusTopmost(wm, w.id);
        }
      }
    }
  }
}
