/**
 * The window manager of gui/window.c as the kernel keeps it: windows is an
 * array of MAX_WINDOWS slots, next_window_id, focused_window and
 * wm_initialized are fields, and every operation is proved against the
 * function of the same name in WmSpec.
 */
module WindowManager {
  import opened Machine
  import opened Wrappers
  import opened WmSpec

  class WindowManager {
    const windows: array<Window>
    var nextId: u32
    var focused: u32
    var initialized: bool

    function State(): Wm
      reads this, windows
    {
      Wm(windows[..], nextId, focused, initialized)
    }

    ghost predicate Ready()
      reads this, windows
    {
      windows.Length == MAX_WINDOWS
    }

    constructor()
      ensures Ready() && State() == Empty()
    {
      windows := new Window[MAX_WINDOWS](_ => EMPTY_WINDOW);
      nextId, focused, initialized := 1, 0, false;
    }

    /** wm_init. */
    method Init()
      requires Ready()
      modifies this, windows
      ensures Ready() && State() == WmSpec.Init(old(State()))
    {
      forall i | 0 <= i < MAX_WINDOWS {
        windows[i] := EMPTY_WINDOW;
      }
      nextId := 1;
      focused := 0;
      initialized := true;
    }

    /** wm_get_window: the slot rather than a pointer into the table. */
    method GetWindow(id: u32) returns (r: Option<nat>)
      requires Ready()
      ensures r == Get(windows[..], id)
    {
      for i := 0 to MAX_WINDOWS
        invariant forall j :: 0 <= j < i ==> windows[j].id != id
      {
        if windows[i].id == id {
          assert FindFrom(windows[..], id, i) == Some(i);
          return Some(i);
        }
      }
      return None;
    }

    /** wm_focus_window. */
    method FocusWindow(id: u32)
      requires Ready()
      modifies this, windows
      ensures Ready() && State() == WmSpec.Focus(old(State()), id)
    {
      var target := GetWindow(id);
      if target.None? {
        return;
      }
      var t := target.value;
      MoveFocusFlags(t);
      focused := id;
      var maxZ := HighestZ();
      windows[t] := windows[t].(z := Wrap32(maxZ as int + 1));
    }

    /** The flag changes of wm_focus_window: the focused window loses FOCUSED, slot t gains it. */
    method MoveFocusFlags(t: nat)
      requires Ready() && t < MAX_WINDOWS
      modifies windows
      ensures Ready() && windows[..] == MoveFocus(old(State()), t)
    {
      if focused != 0 {
        var prev := GetWindow(focused);
        if prev.Some? {
          var p := prev.value;
          windows[p] := windows[p].(flags := WithoutFocused(windows[p].flags), needsRedraw := true);
        }
      }
      windows[t] := windows[t].(flags := WithFocused(windows[t].flags), needsRedraw := true);
    }

    /** The max_z loop of wm_focus_window. */
    method HighestZ() returns (maxZ: u32)
      requires Ready()
      ensures maxZ == MaxZ(windows[..], MAX_WINDOWS)
    {
      maxZ := 0;
      for i := 0 to MAX_WINDOWS
        invariant maxZ == MaxZ(windows[..], i)
      {
        if windows[i].id != 0 && windows[i].z > maxZ {
          maxZ := windows[i].z;
        }
      }
    }

    /** wm_create_window, given whether pmm_alloc could supply the window buffer; its slot search is the loop of wm_get_window for id 0. */
    method CreateWindow(x: u32, y: u32, width: u32, height: u32, title: Option<seq<char>>,
                        flags: FlagWord, gotBuffer: bool) returns (id: u32)
      requires Ready()
      modifies this, windows
      ensures Ready() && (State(), id) == WmSpec.Create(old(State()), x, y, width, height, title, flags, gotBuffer)
    {
      if !initialized {
        return 0;
      }
      var slot := GetWindow(0);
      if slot.None? {
        return 0;
      }
      ghost var s0 := State();
      id := nextId;
      nextId := Wrap32(nextId as int + 1);
      windows[slot.value] := NewWindow(id, x, y, width, height, title, flags, gotBuffer);
      assert State() == Placed(s0, x, y, width, height, title, flags, gotBuffer);
      FocusWindow(id);
    }

    /** wm_destroy_window, whose slot search is the loop of wm_get_window; freeing the buffer's pages is not modelled. */
    method DestroyWindow(id: u32)
      requires Ready()
      modifies this, windows
      ensures Ready() && State() == WmSpec.Destroy(old(State()), id)
    {
      var slot := GetWindow(id);
      if slot.None? {
        return;
      }
      windows[slot.value] := EMPTY_WINDOW;
      if focused == id {
        focused := 0;
        var next := FirstVisibleSlot();
        if next.Some? {
          FocusWindow(windows[next.value].id);
        }
      }
    }

    /** The search of wm_destroy_window for a window to take the focus. */
    method FirstVisibleSlot() returns (r: Option<nat>)
      requires Ready()
      ensures r == FirstVisible(windows[..], 0)
    {
      for j := 0 to MAX_WINDOWS
        invariant forall k :: 0 <= k < j ==> !Live(windows[k]) || !Has(windows[k].flags, FLAG_VISIBLE)
      {
        if windows[j].id != 0 && Has(windows[j].flags, FLAG_VISIBLE) {
          assert FirstVisible(windows[..], j) == Some(j);
          return Some(j);
        }
      }
      return None;
    }

    /** wm_move_window. */
    method MoveWindow(id: u32, x: u32, y: u32)
      requires Ready()
      modifies windows
      ensures Ready() && State() == WmSpec.Move(old(State()), id, x, y)
    {
      var slot := GetWindow(id);
      if slot.Some? {
        var s := slot.value;
        windows[s] := windows[s].(x := x, y := y, needsRedraw := true);
      }
    }

    /** wm_resize_window. */
    method ResizeWindow(id: u32, width: u32, height: u32)
      requires Ready()
      modifies windows
      ensures Ready() && State() == WmSpec.Resize(old(State()), id, width, height)
    {
      var slot := GetWindow(id);
      if slot.Some? && Has(windows[slot.value].flags, FLAG_RESIZABLE) {
        var s := slot.value;
        windows[s] := windows[s].(width := width, height := height, needsRedraw := true);
      }
    }

    /** wm_set_window_state. */
    method SetWindowState(id: u32, state: int)
      requires Ready()
      modifies windows
      ensures Ready() && State() == WmSpec.SetState(old(State()), id, state)
    {
      var slot := GetWindow(id);
      if slot.Some? {
        var s := slot.value;
        windows[s] := windows[s].(state := state, needsRedraw := true);
        if state == STATE_MINIMIZED {
          windows[s] := windows[s].(flags := WithoutVisible(windows[s].flags));
        } else {
          windows[s] := windows[s].(flags := WithVisible(windows[s].flags));
        }
      }
    }

    /**
     * wm_render_all: the live slots in slot order, bubble-sorted by z_order,
     * then drawn back to front. The drawing itself is not modelled; each
     * window drawn loses its redraw mark. Returns the order drawn in.
     */
    method RenderAll() returns (order: seq<nat>)
      requires Ready()
      modifies windows
      ensures Ready()
      ensures !old(initialized) ==> order == [] && windows[..] == old(windows[..])
      ensures old(initialized) ==> RenderOrder(old(windows[..]), order) && windows[..] == Rendered(old(windows[..]))
    {
      if !initialized {
        return [];
      }
      var live := LiveList();
      order := SortByZ(windows[..], live);
      SortedIsRenderOrder(windows[..], order);
      DrawAll(order);
    }

    /** The first loop of wm_render_all: the live slots in slot order. */
    method LiveList() returns (sorted: seq<nat>)
      requires Ready()
      ensures sorted == LiveSlots(windows[..], MAX_WINDOWS)
    {
      sorted := [];
      for i := 0 to MAX_WINDOWS
        invariant sorted == LiveSlots(windows[..], i)
      {
        if windows[i].id != 0 {
          sorted := sorted + [i];
        }
      }
    }

    /** The drawing loop of wm_render_all over a render order. */
    method DrawAll(order: seq<nat>)
      requires Ready() && RenderOrder(windows[..], order)
      modifies windows
      ensures Ready() && windows[..] == Rendered(old(windows[..]))
    {
      ghost var ws := windows[..];
      for k := 0 to |order|
        invariant forall m :: 0 <= m < MAX_WINDOWS ==>
          windows[m] == if m in order[..k] then Drawn(ws[m]) else ws[m]
      {
        var w := order[k];
        assert w !in order[..k] by {
          assert forall p :: 0 <= p < k ==> Before(ws, order[p], order[k]);
        }
        if Has(windows[w].flags, FLAG_VISIBLE) && windows[w].state != STATE_MINIMIZED {
          windows[w] := windows[w].(needsRedraw := false);
        }
        assert order[..k + 1] == order[..k] + [w];
      }
      assert order[..|order|] == order;
      RenderOrderCovers(ws, order);
    }

    /** wm_handle_mouse_click. */
    method HandleMouseClick(x: int, y: int, left: bool)
      requires Ready()
      modifies this, windows
      ensures Ready() && State() == WmSpec.Click(old(State()), x, y, left)
    {
      if !left {
        return;
      }
      var clicked := HitTest(x, y);
      if clicked.Some? {
        var win := windows[clicked.value];
        if InCloseBox(win, x, y) {
          DestroyWindow(win.id);
          return;
        }
        FocusWindow(win.id);
      }
    }

    /** The front-to-back search of wm_handle_mouse_click. */
    method HitTest(x: int, y: int) returns (clicked: Option<nat>)
      requires Ready()
      ensures clicked == Hit(windows[..], x, y)
    {
      ghost var c := Candidates(windows[..], x, y);
      clicked := None;
      var highest: u32 := 0;
      for i := 0 to MAX_WINDOWS
        invariant clicked.Some? ==> clicked.value < MAX_WINDOWS
        invariant Hit(windows[..], x, y) == HitFrom(windows[..], c, i, clicked, highest)
      {
        var win := windows[i];
        if win.id != 0 && Has(win.flags, FLAG_VISIBLE) && win.state != STATE_MINIMIZED {
          if Contains(win, x, y) {
            if win.z > highest {
              highest := win.z;
              clicked := Some(i);
            }
          }
        }
      }
    }
  }

  /** The bubble sort of wm_render_all on its list of slots: swaps neighbours only when the first has the strictly higher z_order. */
  method SortByZ(ws: seq<Window>, live: seq<nat>) returns (a: seq<nat>)
    requires InTable(ws, live) && Stable(ws, live)
    ensures |a| == |live| && multiset(a) == multiset(live) && InTable(ws, a)
    ensures ZSortedFrom(ws, a, 0) && Stable(ws, a)
  {
    a := live;
    var n := |a|;
    var i := 0;
    while i < n - 1
      invariant 0 <= i && (n >= 1 ==> i <= n - 1)
      invariant |a| == n && multiset(a) == multiset(live) && InTable(ws, a) && Stable(ws, a)
      invariant ZSortedFrom(ws, a, n - i)
    {
      a := BubblePass(ws, a, n - i);
      i := i + 1;
    }
  }

  /** One pass of the bubble sort over the slots below hi: the highest z_order among them ends at hi - 1. */
  method BubblePass(ws: seq<Window>, a0: seq<nat>, hi: int) returns (a: seq<nat>)
    requires InTable(ws, a0) && Stable(ws, a0) && 2 <= hi <= |a0| && ZSortedFrom(ws, a0, hi)
    ensures |a| == |a0| && multiset(a) == multiset(a0) && InTable(ws, a) && Stable(ws, a)
    ensures ZSortedFrom(ws, a, hi - 1)
  {
    a := a0;
    var j := 0;
    while j < hi - 1
      invariant 0 <= j <= hi - 1
      invariant |a| == |a0| && multiset(a) == multiset(a0) && InTable(ws, a) && Stable(ws, a)
      invariant ZSortedFrom(ws, a, hi) && PrefixBelow(ws, a, j)
    {
      BubbleStep(ws, a, j, hi);
      if ws[a[j]].z > ws[a[j + 1]].z {
        a := a[j := a[j + 1]][j + 1 := a[j]];
      }
      j := j + 1;
    }
    PassDone(ws, a, hi);
  }
}
