/**
 * The first keyboard driver (keyboard.c): a press looks its scancode up in
 * a 58-entry US QWERTY table and overwrites last_key; the getter consumes
 * it. The scancode is the parameter of the handler; the on-screen echo and
 * the PIC acknowledgement are not modelled.
 */
module Keyboard {
  import opened Machine

  /** scancode_map. */
  const SCANCODE_MAP: seq<char> :=
    ['\0', '\U{1B}', '1', '2', '3', '4', '5', '6', '7', '8', '9', '0'] +
    ['-', '=', '\U{8}', '\t', 'q', 'w', 'e', 'r', 't', 'y', 'u', 'i'] +
    ['o', 'p', '[', ']', '\n', '\0', 'a', 's', 'd', 'f', 'g', 'h'] +
    ['j', 'k', 'l', ';', '\'', '`', '\0', '\\', 'z', 'x', 'c', 'v'] +
    ['b', 'n', 'm', ',', '.', '/', '\0', '*', '\0', ' ']

  /** last_key after keyboard_handler has read scancode. */
  function AfterScan(last: char, scancode: u8): (r: char)
  {
    if scancode >= 0x80 then last
    else if scancode < |SCANCODE_MAP| then SCANCODE_MAP[scancode]
    else last
  }

  /** A release, or a press beyond the table, leaves last_key alone; a press in the table sets it to the table entry. */
  lemma ScanEffect(last: char, scancode: u8)
    ensures |SCANCODE_MAP| == 58
    ensures scancode >= 0x80 || scancode >= 58 ==> AfterScan(last, scancode) == last
    ensures scancode < 58 ==> AfterScan(last, scancode) == SCANCODE_MAP[scancode]
  {
  }

  /** Keys without a character (left ctrl 0x1D, left shift 0x2A) overwrite last_key with 0, losing an unread key. */
  lemma ModifierPressClears(last: char)
    ensures AfterScan(last, 0x1D) == '\0' && AfterScan(last, 0x2A) == '\0'
  {
  }

  /** The press and its release leave the key that was pressed. */
  lemma PressThenRelease(last: char, scancode: u8)
    requires scancode < 0x80
    ensures AfterScan(AfterScan(last, scancode), scancode + 0x80) == AfterScan(last, scancode)
  {
  }

  class Keyboard {
    var lastKey: char

    constructor()
      ensures lastKey == '\0'
    {
      lastKey := '\0';
    }

    /** keyboard_handler, given the scancode read from port 0x60. */
    method Handler(scancode: u8)
      modifies this
      ensures lastKey == AfterScan(old(lastKey), scancode)
    {
      if scancode < 0x80 {
        if scancode < |SCANCODE_MAP| {
          lastKey := SCANCODE_MAP[scancode];
        }
      }
    }

    /** keyboard_get_last_key: returns the key and consumes it. */
    method GetLastKey() returns (c: char)
      modifies this
      ensures c == old(lastKey) && lastKey == '\0'
    {
      c := lastKey;
      lastKey := '\0';
    }
  }
}
