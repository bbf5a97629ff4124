/**
 * The first PS/2 mouse driver (mouse.c): bytes are collected into a
 * three-byte packet; a complete packet without overflow bits updates the
 * buttons and the position, which is clamped to the framebuffer when there
 * is one. The status byte, the data byte and the framebuffer's size (None
 * when the boot loader gave no framebuffer) are the handler's parameters;
 * the PIC acknowledgement is not modelled.
 */
module Mouse {
  import opened Machine
  import opened Wrappers
  import Ps2

  /** m_state (x, y and the three buttons as 0 or 1), mouse_cycle and mouse_byte (the bytes as stored). */
  datatype MouseState = MouseState(x: int, y: int, left: nat, right: nat, middle: nat,
                                   cycle: nat, bytes: seq<u8>)

  ghost predicate Wf(ms: MouseState)
  {
    ms.cycle <= 2 && |ms.bytes| == 3
  }

  /** The framebuffer's width and height. */
  datatype Screen = Screen(width: u32, height: u32)

  /** The clamp of one coordinate against a framebuffer dimension, with the C conversions of w - 1. */
  function Clamp(v: int, size: u32): (r: int)
  {
    var v' := if v < 0 then 0 else v;
    if v' > AsInt32(size) - 1 then AsInt32(Wrap32(size - 1)) else v'
  }

  /** Inside a framebuffer of a real size, the clamp lands on a pixel and leaves a coordinate already on one alone. */
  lemma ClampOnScreen(v: int, size: u32)
    requires 1 <= size < 0x8000_0000
    ensures 0 <= Clamp(v, size) < size
    ensures 0 <= v < size ==> Clamp(v, size) == v
  {
  }

  /** Bit k of a byte, as 0 or 1. */
  function Bit(b: u8, k: nat): (r: nat)
    requires k < 8
    ensures r <= 1
  {
    (b / Pow2(k)) % 2
  }

  function Pow2(k: nat): (r: nat)
    ensures r >= 1
  {
    if k == 0 then 1 else 2 * Pow2(k - 1)
  }

  /** A completed packet: discarded when its first byte has an overflow bit (0x80 or 0x40); otherwise buttons, movement and clamp. */
  function Complete(ms: MouseState, screen: Option<Screen>): (r: MouseState)
    requires |ms.bytes| == 3
  {
    var b0 := ms.bytes[0];
    if Bit(b0, 7) == 1 || Bit(b0, 6) == 1 then ms
    else
      var x := ms.x + Ps2.Delta(ms.bytes[1], Bit(b0, 4) == 1);
      var y := ms.y - Ps2.Delta(ms.bytes[2], Bit(b0, 5) == 1);
      var moved := ms.(left := Bit(b0, 0), right := Bit(b0, 1), middle := Bit(b0, 2), x := x, y := y);
      if screen.None? then moved
      else moved.(x := Clamp(x, screen.value.width), y := Clamp(y, screen.value.height))
  }

  /** mouse_handler: a byte is taken only when status bits 0x01 and 0x20 are both set. */
  function Step(ms: MouseState, status: u8, b: u8, screen: Option<Screen>): (r: MouseState)
    requires Wf(ms)
    ensures Wf(r)
  {
    if Bit(status, 0) == 0 || Bit(status, 5) == 0 then ms
    else
      var stored := ms.(bytes := ms.bytes[ms.cycle := b]);
      if ms.cycle + 1 == 3 then Complete(stored.(cycle := 0), screen)
      else stored.(cycle := ms.cycle + 1)
  }

  predicate OnScreen(ms: MouseState, s: Screen)
  {
    0 <= ms.x < s.width && 0 <= ms.y < s.height
  }

  /** With a framebuffer, an accepted packet leaves the pointer on it, and a pointer already on it stays there. */
  lemma StepStaysOnScreen(ms: MouseState, status: u8, b: u8, s: Screen)
    requires Wf(ms) && 1 <= s.width < 0x8000_0000 && 1 <= s.height < 0x8000_0000
    ensures OnScreen(ms, s) ==> OnScreen(Step(ms, status, b, Some(s)), s)
  {
    var r := Step(ms, status, b, Some(s));
    ClampOnScreen(r.x, s.width);
    ClampOnScreen(r.y, s.height);
  }

  /** A byte without both status bits, and the first two bytes of a packet, leave position and buttons alone; the cycle counts 0, 1, 2, 0. */
  lemma StepCycles(ms: MouseState, status: u8, b: u8, screen: Option<Screen>)
    requires Wf(ms)
    ensures Bit(status, 0) == 0 || Bit(status, 5) == 0 ==> Step(ms, status, b, screen) == ms
    ensures Bit(status, 0) == 1 && Bit(status, 5) == 1 ==>
      Step(ms, status, b, screen).cycle == (ms.cycle + 1) % 3
    ensures ms.cycle < 2 ==>
      var r := Step(ms, status, b, screen);
      r.x == ms.x && r.y == ms.y && r.left == ms.left && r.right == ms.right && r.middle == ms.middle
  {
  }

  /** A packet with an overflow bit set changes nothing but the stored bytes and the cycle. */
  lemma OverflowDiscarded(ms: MouseState, screen: Option<Screen>)
    requires |ms.bytes| == 3 && (Bit(ms.bytes[0], 7) == 1 || Bit(ms.bytes[0], 6) == 1)
    ensures Complete(ms, screen) == ms
  {
  }

  /**
   * Without overflow bits the buttons are bits 0-2 of the first byte, and
   * without a framebuffer the pointer moves by the 9-bit movements, Y
   * inverted.
   */
  lemma PacketMoves(ms: MouseState)
    requires |ms.bytes| == 3 && Bit(ms.bytes[0], 7) == 0 && Bit(ms.bytes[0], 6) == 0
    ensures var r := Complete(ms, None);
      r.left == ms.bytes[0] % 2 && r.right == (ms.bytes[0] / 2) % 2 && r.middle == (ms.bytes[0] / 4) % 2 &&
      r.x == ms.x + Ps2.Delta(ms.bytes[1], (ms.bytes[0] / 16) % 2 == 1) &&
      r.y == ms.y - Ps2.Delta(ms.bytes[2], (ms.bytes[0] / 32) % 2 == 1)
  {
    assert Pow2(1) == 2 && Pow2(2) == 4 && Pow2(4) == 16 && Pow2(5) == 32;
  }

  class Mouse {
    var x: int
    var y: int
    var left: nat
    var right: nat
    var middle: nat
    var cycle: nat
    const bytes: array<u8>

    function State(): MouseState
      reads this, bytes
    {
      MouseState(x, y, left, right, middle, cycle, bytes[..])
    }

    ghost predicate Ready()
      reads this, bytes
    {
      bytes.Length == 3 && Wf(State())
    }

    /** The static initialisers: all zero. */
    constructor()
      ensures Ready() && State() == MouseState(0, 0, 0, 0, 0, 0, [0, 0, 0])
    {
      x, y, left, right, middle, cycle := 0, 0, 0, 0, 0, 0;
      bytes := new u8[3](_ => 0);
      new;
      assert bytes[..] == [0, 0, 0];
    }

    /** mouse_handler, given the status byte, the data byte and the framebuffer's size. */
    method Handler(status: u8, b: u8, screen: Option<Screen>)
      requires Ready()
      modifies this, bytes
      ensures Ready() && State() == Step(old(State()), status, b, screen)
    {
      if Bit(status, 0) == 0 || Bit(status, 5) == 0 {
        return;
      }
      bytes[cycle] := b;
      cycle := cycle + 1;
      if cycle == 3 {
        cycle := 0;
        CompletePacket(screen);
      }
    }

    /** The processing of a completed packet in mouse_handler. */
    method CompletePacket(screen: Option<Screen>)
      requires Ready()
      modifies this
      ensures Ready() && State() == Complete(old(State()), screen)
    {
      var b0 := bytes[0];
      if Bit(b0, 7) == 1 || Bit(b0, 6) == 1 {
        return;
      }
      left := Bit(b0, 0);
      right := Bit(b0, 1);
      middle := Bit(b0, 2);
      var xMove := Ps2.Delta(bytes[1], Bit(b0, 4) == 1);
      var yMove := Ps2.Delta(bytes[2], Bit(b0, 5) == 1);
      x := x + xMove;
      y := y - yMove;
      if screen.Some? {
        var w: int, h: int := screen.value.width, screen.value.height;
        if x < 0 { x := 0; }
        if y < 0 { y := 0; }
        if x > AsInt32(w) - 1 { x := AsInt32(Wrap32(w - 1)); }
        if y > AsInt32(h) - 1 { y := AsInt32(Wrap32(h - 1)); }
      }
    }
  }
}
