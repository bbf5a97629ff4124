/**
 * The enhanced keyboard and mouse driver (drivers/input/keyboard.c): a
 * 256-slot character ring, the modifier and lock state, scancode
 * translation, and the three-byte PS/2 mouse packet assembler. The port
 * reads become the handlers' parameters; the end-of-interrupt writes, the
 * serial echo and the debug printk lines are not modelled.
 */
module KeyInput {
  import opened Machine
  import Ps2

  const BUFFER_SIZE: nat := 256
  const TABLE_SIZE: nat := 84
  const SCREEN_WIDTH: int := 1920
  const SCREEN_HEIGHT: int := 1080

  const KEY_LSHIFT: nat := 0x2A
  const KEY_RSHIFT: nat := 0x36
  const KEY_LCTRL: nat := 0x1D
  const KEY_LALT: nat := 0x38
  const KEY_CAPS_LOCK: nat := 0x3A
  const KEY_NUM_LOCK: nat := 0x45
  const KEY_SCROLL_LOCK: nat := 0x46
  const KEY_F1: nat := 0x3B
  const KEY_F12: nat := 0x58

  /** scancode_to_char_lower. */
  const LOWER: seq<char> :=
    ['\0', '\U{1B}', '1', '2', '3', '4', '5', '6', '7', '8', '9', '0'] +
    ['-', '=', '\U{8}', '\t', 'q', 'w', 'e', 'r', 't', 'y', 'u', 'i'] +
    ['o', 'p', '[', ']', '\n', '\0', 'a', 's', 'd', 'f', 'g', 'h'] +
    ['j', 'k', 'l', ';', '\'', '`', '\0', '\\', 'z', 'x', 'c', 'v'] +
    ['b', 'n', 'm', ',', '.', '/', '\0', '*', '\0', ' ', '\0', '\0'] +
    ['\0', '\0', '\0', '\0', '\0', '\0', '\0', '\0', '\0', '\0', '\0', '7'] +
    ['8', '9', '-', '4', '5', '6', '+', '1', '2', '3', '0', '.']

  /** scancode_to_char_upper. */
  const UPPER: seq<char> :=
    ['\0', '\U{1B}', '!', '@', '#', '$', '%', '^', '&', '*', '(', ')'] +
    ['_', '+', '\U{8}', '\t', 'Q', 'W', 'E', 'R', 'T', 'Y', 'U', 'I'] +
    ['O', 'P', '{', '}', '\n', '\0', 'A', 'S', 'D', 'F', 'G', 'H'] +
    ['J', 'K', 'L', ':', '\"', '~', '\0', '|', 'Z', 'X', 'C', 'V'] +
    ['B', 'N', 'M', '<', '>', '?', '\0', '*', '\0', ' ', '\0', '\0'] +
    ['\0', '\0', '\0', '\0', '\0', '\0', '\0', '\0', '\0', '\0', '\0', '7'] +
    ['8', '9', '-', '4', '5', '6', '+', '1', '2', '3', '0', '.']

  // ---------------------------------------------------------------------
  // State
  // ---------------------------------------------------------------------

  datatype Mods = Mods(shift: bool, ctrl: bool, alt: bool, caps: bool, num: bool, scroll: bool)

  /** mouse_cycle, mouse_packet (the bytes as stored), mouse_x/mouse_y and the three buttons. */
  datatype MouseState = MouseState(cycle: nat, packet: seq<u8>, x: int, y: int,
                                   left: bool, right: bool, middle: bool)

  datatype DriverState = DriverState(mods: Mods, ring: seq<char>, head: nat, tail: nat, mouse: MouseState)

  ghost predicate Wf(st: DriverState)
  {
    |st.ring| == BUFFER_SIZE && st.head < BUFFER_SIZE && st.tail < BUFFER_SIZE &&
    st.mouse.cycle <= 2 && |st.mouse.packet| == 3
  }

  /** The buffered characters, oldest first. */
  function Buffered(st: DriverState): (r: seq<char>)
    requires Wf(st)
    ensures |r| == (st.head - st.tail + BUFFER_SIZE) % BUFFER_SIZE
    ensures forall k :: 0 <= k < |r| ==> r[k] == st.ring[(st.tail + k) % BUFFER_SIZE]
  {
    var n := (st.head - st.tail + BUFFER_SIZE) % BUFFER_SIZE;
    seq(n, k requires 0 <= k < n => st.ring[(st.tail + k) % BUFFER_SIZE])
  }

  // ---------------------------------------------------------------------
  // The ring buffer
  // ---------------------------------------------------------------------

  /** keyboard_buffer_put: stores c unless the slot after head is tail. */
  function Put(st: DriverState, c: char): (r: DriverState)
    requires Wf(st)
    ensures Wf(r)
  {
    var next := (st.head + 1) % BUFFER_SIZE;
    if next != st.tail then st.(ring := st.ring[st.head := c], head := next) else st
  }

  /** keyboard_get_key: 0 when empty, else the character at tail, which then advances. */
  function Get(st: DriverState): (r: (DriverState, char))
    requires Wf(st)
    ensures Wf(r.0)
  {
    if st.head == st.tail then (st, '\0')
    else (st.(tail := (st.tail + 1) % BUFFER_SIZE), st.ring[st.tail])
  }

  /** A put appends to the buffered characters unless 255 are already buffered, in which case nothing changes. */
  lemma PutAppends(st: DriverState, c: char)
    requires Wf(st)
    ensures |Buffered(st)| < BUFFER_SIZE
    ensures |Buffered(st)| < BUFFER_SIZE - 1 ==> Buffered(Put(st, c)) == Buffered(st) + [c]
    ensures |Buffered(st)| == BUFFER_SIZE - 1 ==> Put(st, c) == st
  {
    RingCount(st.head, st.tail);
    var b := Buffered(st);
    if |b| < BUFFER_SIZE - 1 {
      PutCount(st, c);
      var b' := Buffered(Put(st, c));
      forall k | 0 <= k < |b'|
        ensures b'[k] == (b + [c])[k]
      {
        PutSlot(st, c, k);
      }
    }
  }

  /** After a put with room left, the buffered characters are the old ones and then c. */
  lemma PutSlot(st: DriverState, c: char, k: nat)
    requires Wf(st) && |Buffered(st)| < BUFFER_SIZE - 1 && k <= |Buffered(st)| && k < |Buffered(Put(st, c))|
    ensures Buffered(Put(st, c))[k] == if k < |Buffered(st)| then Buffered(st)[k] else c
  {
    RingSlot(st.head, st.tail, k);
  }

  /** A put with room left buffers one character more. */
  lemma PutCount(st: DriverState, c: char)
    requires Wf(st) && |Buffered(st)| < BUFFER_SIZE - 1
    ensures |Buffered(Put(st, c))| == |Buffered(st)| + 1
  {
    RingCount(st.head, st.tail);
    RingCount((st.head + 1) % BUFFER_SIZE, st.tail);
  }

  /** The number of characters buffered between tail and head, without the modulus. */
  lemma RingCount(head: nat, tail: nat)
    requires head < BUFFER_SIZE && tail < BUFFER_SIZE
    ensures (head - tail + BUFFER_SIZE) % BUFFER_SIZE == if head >= tail then head - tail else head - tail + BUFFER_SIZE
  {
  }

  /** Slot tail + k of the ring is head exactly when k is the number of characters buffered. */
  lemma RingSlot(head: nat, tail: nat, k: nat)
    requires head < BUFFER_SIZE && tail < BUFFER_SIZE && k <= (head - tail + BUFFER_SIZE) % BUFFER_SIZE
    ensures (tail + k) % BUFFER_SIZE == head <==> k == (head - tail + BUFFER_SIZE) % BUFFER_SIZE
  {
    if head >= tail {
      assert (head - tail + BUFFER_SIZE) % BUFFER_SIZE == head - tail;
    } else {
      assert (head - tail + BUFFER_SIZE) % BUFFER_SIZE == head - tail + BUFFER_SIZE;
    }
  }

  /** A get on an empty buffer returns 0 and changes nothing; otherwise it returns the oldest character and removes it. */
  lemma GetTakesOldest(st: DriverState)
    requires Wf(st)
    ensures Buffered(st) == [] ==> Get(st) == (st, '\0')
    ensures Buffered(st) != [] ==>
      Get(st).1 == Buffered(st)[0] && Buffered(Get(st).0) == Buffered(st)[1..]
  {
    RingCount(st.head, st.tail);
    if st.head != st.tail {
      GetCount(st);
      var b, b' := Buffered(st), Buffered(Get(st).0);
      forall k | 0 <= k < |b'|
        ensures b'[k] == b[1..][k]
      {
        GetSlot(st, k);
      }
    }
  }

  /** A get on a nonempty buffer leaves one character fewer. */
  lemma GetCount(st: DriverState)
    requires Wf(st) && st.head != st.tail
    ensures |Buffered(Get(st).0)| == |Buffered(st)| - 1
  {
    RingCount(st.head, st.tail);
    RingCount(st.head, (st.tail + 1) % BUFFER_SIZE);
  }

  /** After a get, the k-th buffered character is the one that came k + 1-th before. */
  lemma GetSlot(st: DriverState, k: nat)
    requires Wf(st) && st.head != st.tail && k < |Buffered(Get(st).0)| && k + 1 < |Buffered(st)|
    ensures Buffered(Get(st).0)[k] == Buffered(st)[k + 1]
  {
    ModShift(st.tail, k);
  }

  lemma ModShift(t: nat, k: nat)
    ensures ((t + 1) % BUFFER_SIZE + k) % BUFFER_SIZE == (t + (k + 1)) % BUFFER_SIZE
  {
  }

  /** Characters come out in the order they went in: on an empty buffer, two puts are read back by two gets. */
  lemma FirstInFirstOut(st: DriverState, c: char, d: char)
    requires Wf(st) && Buffered(st) == []
    ensures var (s1, x) := Get(Put(Put(st, c), d)); var (_, y) := Get(s1); x == c && y == d
  {
    PutAppends(st, c);
    var p1 := Put(st, c);
    PutAppends(p1, d);
    var p2 := Put(p1, d);
    assert Buffered(p2) == [c, d];
    GetTakesOldest(p2);
    var (s1, x) := Get(p2);
    assert Buffered(s1) == [d];
    GetTakesOldest(s1);
  }

  // ---------------------------------------------------------------------
  // Modifiers and translation
  // ---------------------------------------------------------------------

  /** The scancodes keyboard_handler_c passes to handle_special_key instead of translating them. */
  predicate IsSpecial(code: nat)
  {
    code == KEY_LSHIFT || code == KEY_RSHIFT || code == KEY_LCTRL || code == KEY_LALT ||
    code == KEY_CAPS_LOCK || code == KEY_NUM_LOCK || code == KEY_SCROLL_LOCK ||
    (KEY_F1 <= code <= KEY_F12)
  }

  /** handle_special_key's effect on the modifier state (its F1-F4 log lines are not modelled). */
  function Special(m: Mods, code: nat, pressed: bool): (r: Mods)
  {
    if code == KEY_LSHIFT || code == KEY_RSHIFT then m.(shift := pressed)
    else if code == KEY_LCTRL then m.(ctrl := pressed)
    else if code == KEY_LALT then m.(alt := pressed)
    else if code == KEY_CAPS_LOCK then (if pressed then m.(caps := !m.caps) else m)
    else if code == KEY_NUM_LOCK then (if pressed then m.(num := !m.num) else m)
    else if code == KEY_SCROLL_LOCK then (if pressed then m.(scroll := !m.scroll) else m)
    else m
  }

  /** Shift, ctrl and alt follow the key; a lock toggles on a press and ignores a release. */
  lemma ModifiersTrackAndLocksToggle(m: Mods, pressed: bool)
    ensures Special(m, KEY_LSHIFT, pressed).shift == pressed && Special(m, KEY_RSHIFT, pressed).shift == pressed
    ensures Special(m, KEY_LCTRL, pressed).ctrl == pressed && Special(m, KEY_LALT, pressed).alt == pressed
    ensures Special(m, KEY_CAPS_LOCK, true).caps == !m.caps && Special(m, KEY_CAPS_LOCK, false) == m
    ensures Special(m, KEY_NUM_LOCK, true).num == !m.num && Special(m, KEY_NUM_LOCK, false) == m
    ensures Special(m, KEY_SCROLL_LOCK, true).scroll == !m.scroll && Special(m, KEY_SCROLL_LOCK, false) == m
  {
  }

  /** Pressing a lock twice restores the state; the function keys change nothing. */
  lemma LockTwiceAndFunctionKeys(m: Mods, code: nat, pressed: bool)
    requires code == KEY_CAPS_LOCK || code == KEY_NUM_LOCK || code == KEY_SCROLL_LOCK
    ensures Special(Special(m, code, true), code, true) == m
    ensures forall f :: KEY_F1 <= f <= KEY_F12 && f != KEY_NUM_LOCK && f != KEY_SCROLL_LOCK ==>
      Special(m, f, pressed) == m
  {
  }

  /** The table character for a regular key, then ctrl's mapping of letters to 1..26. */
  function Translate(m: Mods, code: nat): (c: char)
    requires code < TABLE_SIZE
  {
    var c := if m.shift != m.caps then UPPER[code] else LOWER[code];
    if m.ctrl && 'a' <= c <= 'z' then (c as int - 'a' as int + 1) as char
    else if m.ctrl && 'A' <= c <= 'Z' then (c as int - 'A' as int + 1) as char
    else c
  }

  /** With ctrl held a letter key gives its position in the alphabet (Ctrl+A is 1), in either case. */
  lemma CtrlLetters(m: Mods, code: nat)
    requires m.ctrl && code < TABLE_SIZE && 'a' <= LOWER[code] <= 'z' && 'A' <= UPPER[code] <= 'Z'
    ensures 1 <= Translate(m, code) as int <= 26
    ensures m.shift == m.caps ==> Translate(m, code) as int == LOWER[code] as int - 'a' as int + 1
    ensures m.shift != m.caps ==> Translate(m, code) as int == UPPER[code] as int - 'A' as int + 1
  {
  }

  lemma CtrlA(m: Mods)
    requires m.ctrl
    ensures Translate(m, 0x1E) == '\U{1}'
  {
    assert LOWER[0x1E] == 'a' && UPPER[0x1E] == 'A';
  }

  /** Shift and caps lock cancel: the upper table is used exactly when one of them is on. */
  lemma ShiftXorCaps(m: Mods, code: nat)
    requires code < TABLE_SIZE
    ensures Translate(m.(shift := true, caps := true), code) == Translate(m.(shift := false, caps := false), code)
    ensures !m.ctrl ==> Translate(m.(shift := true, caps := false), code) == UPPER[code]
    ensures !m.ctrl ==> Translate(m.(shift := false, caps := true), code) == UPPER[code]
  {
  }

  /** keyboard_handler_c with the status byte read from port 0x64 and the scancode from port 0x60. */
  function KeyEvent(st: DriverState, status: u8, scancode: u8): (r: DriverState)
    requires Wf(st)
    ensures Wf(r)
  {
    if status % 2 == 0 then st
    else
      var released := scancode >= 0x80;
      var code := scancode % 0x80;
      if IsSpecial(code) then st.(mods := Special(st.mods, code, !released))
      else if released then st
      else if code < TABLE_SIZE && Translate(st.mods, code) != '\0' then Put(st, Translate(st.mods, code))
      else st
  }

  /** A modifier, lock or function key, pressed or released, never reaches the buffer. */
  lemma SpecialKeysNotBuffered(st: DriverState, status: u8, scancode: u8)
    requires Wf(st) && IsSpecial(scancode % 0x80)
    ensures KeyEvent(st, status, scancode).(mods := st.mods) == st
  {
  }

  /** A regular key's release, a scancode beyond the table and a key with no character change nothing at all. */
  lemma IgnoredKeys(st: DriverState, status: u8, scancode: u8)
    requires Wf(st) && !IsSpecial(scancode % 0x80)
    requires scancode >= 0x80 || scancode >= TABLE_SIZE || Translate(st.mods, scancode) == '\0'
    ensures KeyEvent(st, status, scancode) == st
  {
    if status % 2 == 1 && scancode < 0x80 {
      assert scancode % 0x80 == scancode;
    }
  }

  /** A regular key press appends its translated character, when it has one and the buffer has room. */
  lemma RegularKeyBuffered(st: DriverState, status: u8, scancode: u8)
    requires Wf(st) && status % 2 == 1 && scancode < TABLE_SIZE && !IsSpecial(scancode)
    requires Translate(st.mods, scancode) != '\0' && |Buffered(st)| < BUFFER_SIZE - 1
    ensures Buffered(KeyEvent(st, status, scancode)) == Buffered(st) + [Translate(st.mods, scancode)]
    ensures KeyEvent(st, status, scancode).mods == st.mods
  {
    var c := Translate(st.mods, scancode);
    assert scancode % 0x80 == scancode;
    assert KeyEvent(st, status, scancode) == Put(st, c);
    PutAppends(st, c);
  }

  // ---------------------------------------------------------------------
  // The mouse packet assembler
  // ---------------------------------------------------------------------

  /** The position is clamped into [0, 1919] x [0, 1079]. */
  function ClampTo(v: int, limit: int): (r: int)
    requires limit >= 1
    ensures 0 <= r < limit
    ensures 0 <= v < limit ==> r == v
  {
    if v < 0 then 0 else if v >= limit then limit - 1 else v
  }

  /** A completed packet: the buttons from bits 0-2 of its first byte, X added, Y subtracted, both clamped. */
  function Process(ms: MouseState): (r: MouseState)
    requires |ms.packet| == 3
  {
    var p0 := ms.packet[0];
    var dx := Ps2.Delta(ms.packet[1], (p0 / 0x10) % 2 == 1);
    var dy := Ps2.Delta(ms.packet[2], (p0 / 0x20) % 2 == 1);
    ms.(left := p0 % 2 == 1, right := (p0 / 2) % 2 == 1, middle := (p0 / 4) % 2 == 1,
        x := ClampTo(ms.x + dx, SCREEN_WIDTH), y := ClampTo(ms.y - dy, SCREEN_HEIGHT))
  }

  /**
   * mouse_handler_c with the status byte and the data byte: ignored unless
   * status bit 0x20 says the byte is from the mouse; the first byte of a
   * packet must have bit 0x08 set; the third completes the packet.
   */
  function MouseEvent(ms: MouseState, status: u8, b: u8): (r: MouseState)
    requires ms.cycle <= 2 && |ms.packet| == 3
    ensures r.cycle <= 2 && |r.packet| == 3
  {
    if (status / 0x20) % 2 == 0 then ms
    else if ms.cycle == 0 then
      (if (b / 8) % 2 == 0 then ms else ms.(packet := ms.packet[0 := b], cycle := 1))
    else if ms.cycle == 1 then ms.(packet := ms.packet[1 := b], cycle := 2)
    else Process(ms.(packet := ms.packet[2 := b], cycle := 0))
  }

  predicate OnScreen(ms: MouseState)
  {
    0 <= ms.x < SCREEN_WIDTH && 0 <= ms.y < SCREEN_HEIGHT
  }

  /** A processed packet always leaves the pointer on the screen, and an on-screen pointer stays there. */
  lemma MouseStaysOnScreen(ms: MouseState, status: u8, b: u8)
    requires ms.cycle <= 2 && |ms.packet| == 3
    ensures ms.cycle == 2 && (status / 0x20) % 2 == 1 ==> OnScreen(MouseEvent(ms, status, b))
    ensures OnScreen(ms) ==> OnScreen(MouseEvent(ms, status, b))
  {
  }

  /** Position and buttons change only on the third byte of a packet, and a first byte without bit 0x08 is dropped. */
  lemma MouseWaitsForThirdByte(ms: MouseState, status: u8, b: u8)
    requires ms.cycle <= 1 && |ms.packet| == 3
    ensures var r := MouseEvent(ms, status, b);
      r.x == ms.x && r.y == ms.y && r.left == ms.left && r.right == ms.right && r.middle == ms.middle
    ensures ms.cycle == 0 && (b / 8) % 2 == 0 ==> MouseEvent(ms, status, b) == ms
  {
  }

  /**
   * Three mouse bytes, the first with bit 0x08, starting at cycle 0:
   * the cycle returns to 0 and the packet of exactly those bytes is
   * processed, with the movement decoded as 9-bit two's complement.
   */
  lemma MousePacket(ms: MouseState, status: u8, b0: u8, b1: u8, b2: u8)
    requires ms.cycle == 0 && |ms.packet| == 3
    requires (status / 0x20) % 2 == 1 && (b0 / 8) % 2 == 1
    ensures MouseEvent(MouseEvent(MouseEvent(ms, status, b0), status, b1), status, b2) ==
      Process(ms.(packet := [b0, b1, b2]))
    ensures var r := Process(ms.(packet := [b0, b1, b2]));
      r.left == (b0 % 2 == 1) &&
      r.x == ClampTo(ms.x + Ps2.Delta(b1, (b0 / 0x10) % 2 == 1), SCREEN_WIDTH) &&
      r.y == ClampTo(ms.y - Ps2.Delta(b2, (b0 / 0x20) % 2 == 1), SCREEN_HEIGHT)
  {
    var m1 := MouseEvent(ms, status, b0);
    var m2 := MouseEvent(m1, status, b1);
    assert m2.packet[2 := b2] == [b0, b1, b2];
  }

  // ---------------------------------------------------------------------
  // The driver
  // ---------------------------------------------------------------------

  class Driver {
    var mods: Mods
    const ring: array<char>
    var head: nat
    var tail: nat
    var cycle: nat
    const packet: array<u8>
    var mouseX: int
    var mouseY: int
    var left: bool
    var right: bool
    var middle: bool

    function State(): DriverState
      reads this, ring, packet
    {
      DriverState(mods, ring[..], head, tail,
                  MouseState(cycle, packet[..], mouseX, mouseY, left, right, middle))
    }

    ghost predicate Ready()
      reads this, ring, packet
    {
      ring.Length == BUFFER_SIZE && packet.Length == 3 && Wf(State())
    }

    /** The static initialisers: everything off, an empty buffer, the pointer at (400, 300). */
    constructor()
      ensures Ready() && fresh(ring) && fresh(packet)
      ensures State() == DriverState(Mods(false, false, false, false, false, false),
                                     seq(BUFFER_SIZE, _ => '\0'), 0, 0,
                                     MouseState(0, [0, 0, 0], 400, 300, false, false, false))
    {
      mods := Mods(false, false, false, false, false, false);
      ring := new char[BUFFER_SIZE](_ => '\0');
      head, tail := 0, 0;
      cycle := 0;
      packet := new u8[3](_ => 0);
      mouseX, mouseY := 400, 300;
      left, right, middle := false, false, false;
      new;
      assert packet[..] == [0, 0, 0];
      assert ring[..] == seq(BUFFER_SIZE, _ => '\0');
    }

    /** keyboard_init's buffer reset (the PIC and mouse programming are port I/O). */
    method Init()
      requires Ready()
      modifies this
      ensures Ready() && State() == old(State()).(head := 0, tail := 0)
    {
      head := 0;
      tail := 0;
    }

    /** keyboard_buffer_put. */
    method BufferPut(c: char)
      requires Ready()
      modifies this, ring
      ensures Ready() && State() == Put(old(State()), c)
    {
      var next := (head + 1) % BUFFER_SIZE;
      if next != tail {
        ring[head] := c;
        head := next;
      }
    }

    /** keyboard_get_key. */
    method GetKey() returns (c: char)
      requires Ready()
      modifies this
      ensures Ready() && (State(), c) == Get(old(State()))
    {
      if head == tail {
        return '\0';
      }
      c := ring[tail];
      tail := (tail + 1) % BUFFER_SIZE;
    }

    /** handle_special_key. */
    method HandleSpecialKey(code: nat, pressed: bool)
      requires Ready()
      modifies this
      ensures Ready() && State() == old(State()).(mods := Special(old(mods), code, pressed))
    {
      if code == KEY_LSHIFT || code == KEY_RSHIFT {
        mods := mods.(shift := pressed);
      } else if code == KEY_LCTRL {
        mods := mods.(ctrl := pressed);
      } else if code == KEY_LALT {
        mods := mods.(alt := pressed);
      } else if code == KEY_CAPS_LOCK {
        if pressed { mods := mods.(caps := !mods.caps); }
      } else if code == KEY_NUM_LOCK {
        if pressed { mods := mods.(num := !mods.num); }
      } else if code == KEY_SCROLL_LOCK {
        if pressed { mods := mods.(scroll := !mods.scroll); }
      }
    }

    /** keyboard_handler_c, given the two port reads. */
    method KeyboardHandler(status: u8, scancode: u8)
      requires Ready()
      modifies this, ring
      ensures Ready() && State() == KeyEvent(old(State()), status, scancode)
    {
      if status % 2 == 1 {
        var released := scancode >= 0x80;
        var code := scancode % 0x80;
        if IsSpecial(code) {
          HandleSpecialKey(code, !released);
          return;
        }
        if released {
          return;
        }
        if code < TABLE_SIZE {
          var c := Translate(mods, code);
          if c != '\0' {
            BufferPut(c);
          }
        }
      }
    }

    /** mouse_handler_c, given the status byte and the data byte. */
    method MouseHandler(status: u8, b: u8)
      requires Ready()
      modifies this, packet
      ensures Ready()
      ensures State() == old(State()).(mouse := MouseEvent(old(State()).mouse, status, b))
    {
      if (status / 0x20) % 2 == 0 {
        return;
      }
      if cycle == 0 {
        if (b / 8) % 2 == 0 {
          return;
        }
        packet[0] := b;
        cycle := 1;
      } else if cycle == 1 {
        packet[1] := b;
        cycle := 2;
      } else {
        packet[2] := b;
        cycle := 0;
        ProcessPacket();
      }
    }

    /** The processing of a completed packet in mouse_handler_c. */
    method ProcessPacket()
      requires Ready()
      modifies this
      ensures Ready() && State() == old(State()).(mouse := Process(old(State()).mouse))
    {
      var p0 := packet[0];
      left := p0 % 2 == 1;
      right := (p0 / 2) % 2 == 1;
      middle := (p0 / 4) % 2 == 1;
      var dx := Ps2.Delta(packet[1], (p0 / 0x10) % 2 == 1);
      var dy := Ps2.Delta(packet[2], (p0 / 0x20) % 2 == 1);
      mouseX := mouseX + dx;
      mouseY := mouseY - dy;
      if mouseX < 0 { mouseX := 0; }
      if mouseX >= SCREEN_WIDTH { mouseX := SCREEN_WIDTH - 1; }
      if mouseY < 0 { mouseY := 0; }
      if mouseY >= SCREEN_HEIGHT { mouseY := SCREEN_HEIGHT - 1; }
    }
  }
}
