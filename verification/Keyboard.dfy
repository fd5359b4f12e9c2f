/** The key flags of keyboard.c. */
module Keyboard {
  import opened Letters

  /** The scan codes of the letters a to z. */
  const LETTER_CODE: seq<int> := [
    30, 48, 46, 32, 18, 33, 34, 35, 23, 36,
    37, 38, 50, 49, 24, 25, 16, 19, 31, 20,
    22, 47, 17, 45, 21, 44
  ]

  lemma CodesDistinct()
    ensures |LETTER_CODE| == 26
    ensures forall i, j :: 0 <= i < j < 26 ==> LETTER_CODE[i] != LETTER_CODE[j]
  {
  }

  /** The codes are those of the three letter rows of a PC keyboard, numbered along each row. */
  lemma CodesFollowRows()
    ensures forall i :: 0 <= i < 10 ==> CodeOf("qwertyuiop"[i]) == 16 + i
    ensures forall i :: 0 <= i < 9 ==> CodeOf("asdfghjkl"[i]) == 30 + i
    ensures forall i :: 0 <= i < 7 ==> CodeOf("zxcvbnm"[i]) == 44 + i
  {
  }

  function CodeOf(c: char): int {
    if 'a' <= c <= 'z' then LETTER_CODE[c as int - 'a' as int] else -1
  }

  /** The flags after a keyboard event. */
  function Pressed(keys: Keys, scanCode: int): Keys {
    PressedBy(LETTER_CODE, keys, scanCode)
  }

  function PressedBy(codes: seq<int>, keys: Keys, scanCode: int): (r: Keys)
    requires |codes| == 26
    ensures forall i :: 0 <= i < 26 ==> r[i] == (keys[i] || codes[i] == scanCode)
  {
    seq(26, i requires 0 <= i < 26 => keys[i] || codes[i] == scanCode)
  }

  lemma PressedByOne(codes: seq<int>, keys: Keys, scanCode: int, i: int)
    requires |codes| == 26 && forall i, j :: 0 <= i < j < 26 ==> codes[i] != codes[j]
    ensures 0 <= i < 26 && codes[i] == scanCode ==> PressedBy(codes, keys, scanCode) == keys[i := true]
    ensures scanCode !in codes ==> PressedBy(codes, keys, scanCode) == keys
  {
  }

  /** A scan code presses the one key that has it, or nothing. */
  lemma PressedOne(keys: Keys, scanCode: int)
    ensures forall i :: 0 <= i < 26 && LETTER_CODE[i] == scanCode ==> Pressed(keys, scanCode) == keys[i := true]
    ensures scanCode !in LETTER_CODE ==> Pressed(keys, scanCode) == keys
  {
    CodesDistinct();
    forall i {
      PressedByOne(LETTER_CODE, keys, scanCode, i);
    }
  }

  class KeyState {
    const letterPressed: array<bool>
    var keyCode: int

    constructor ()
      ensures Valid() && Flags() == seq(26, _ => false)
      ensures fresh(letterPressed)
    {
      letterPressed := new bool[26](_ => false);
      keyCode := 0;
    }

    ghost predicate Valid() {
      letterPressed.Length == 26
    }

    ghost function Flags(): Keys
      requires Valid()
      reads letterPressed
    {
      letterPressed[..]
    }

    /** press_key */
    method PressKey(scanCode: int)
      requires Valid()
      modifies letterPressed
      ensures Flags() == Pressed(old(Flags()), scanCode)
    {
      var i := 0;
      while i < 26
        invariant 0 <= i <= 26
        invariant forall j :: 0 <= j < i ==> letterPressed[j] == (old(letterPressed[j]) || LETTER_CODE[j] == scanCode)
        invariant forall j :: i <= j < 26 ==> letterPressed[j] == old(letterPressed[j])
      {
        if LETTER_CODE[i] == scanCode {
          letterPressed[i] := true;
        }
        i := i + 1;
      }
    }

    /** release_key; the index assertion is the precondition. */
    method ReleaseKey(index: int)
      requires Valid() && 0 <= index < 26
      modifies letterPressed
      ensures Flags() == Released(old(Flags()), index)
      ensures Flags() == old(Flags())[index := false]
    {
      letterPressed[index] := false;
    }

    /** query_key */
    method QueryKey(index: int) returns (pressed: bool)
      requires Valid() && 0 <= index < 26
      ensures pressed == Flags()[index]
    {
      pressed := letterPressed[index];
    }

    /** keyboard_event, for the scan code read from the port. */
    method KeyboardEvent(scanCode: int)
      requires Valid()
      modifies this`keyCode, letterPressed
      ensures keyCode == scanCode && Flags() == Pressed(old(Flags()), scanCode)
    {
      keyCode := scanCode;
      PressKey(keyCode);
    }
  }
}
