/**
 The keyboard buffer of kernel/drivers/keyboard.c: the interrupt handler is the only producer and
 may run between any two steps of the consumer.
 */
module KeyRing {
  const BUFFER_SIZE: int := 256

  /** The layout tables, eight scancodes to a row; 0 for keys without a character. */
  const PLAIN: seq<seq<int>> := [
    [0, 0, 0x31, 0x32, 0x33, 0x34, 0x35, 0x36],
    [0x37, 0x38, 0x39, 0x30, 0x2D, 0x3D, 0x08, 0x09],
    [0x71, 0x77, 0x65, 0x72, 0x74, 0x79, 0x75, 0x69],
    [0x6F, 0x70, 0x5B, 0x5D, 0x0A, 0, 0x61, 0x73],
    [0x64, 0x66, 0x67, 0x68, 0x6A, 0x6B, 0x6C, 0x3B],
    [0x27, 0x60, 0, 0x5C, 0x7A, 0x78, 0x63, 0x76],
    [0x62, 0x6E, 0x6D, 0x2C, 0x2E, 0x2F, 0, 0x2A],
    [0, 0x20, 0, 0, 0, 0, 0, 0],
    [0, 0, 0, 0, 0, 0, 0, 0x37],
    [0x38, 0x39, 0x2D, 0x34, 0x35, 0x36, 0x2B, 0x31],
    [0x32, 0x33, 0x30, 0x2E, 0, 0, 0, 0],
    [0, 0, 0, 0, 0, 0, 0, 0],
    [0, 0, 0, 0, 0, 0, 0, 0],
    [0, 0, 0, 0, 0, 0, 0, 0],
    [0, 0, 0, 0, 0, 0, 0, 0],
    [0, 0, 0, 0, 0, 0, 0, 0]]

  const SHIFTED: seq<seq<int>> := [
    [0, 0, 0x21, 0x40, 0x23, 0x24, 0x25, 0x5E],
    [0x26, 0x2A, 0x28, 0x29, 0x5F, 0x2B, 0x08, 0x09],
    [0x51, 0x57, 0x45, 0x52, 0x54, 0x59, 0x55, 0x49],
    [0x4F, 0x50, 0x7B, 0x7D, 0x0A, 0, 0x41, 0x53],
    [0x44, 0x46, 0x47, 0x48, 0x4A, 0x4B, 0x4C, 0x3A],
    [0x22, 0x7E, 0, 0x7C, 0x5A, 0x58, 0x43, 0x56],
    [0x42, 0x4E, 0x4D, 0x3C, 0x3E, 0x3F, 0, 0x2A],
    [0, 0x20, 0, 0, 0, 0, 0, 0],
    [0, 0, 0, 0, 0, 0, 0, 0x37],
    [0x38, 0x39, 0x2D, 0x34, 0x35, 0x36, 0x2B, 0x31],
    [0x32, 0x33, 0x30, 0x2E, 0, 0, 0, 0],
    [0, 0, 0, 0, 0, 0, 0, 0],
    [0, 0, 0, 0, 0, 0, 0, 0],
    [0, 0, 0, 0, 0, 0, 0, 0],
    [0, 0, 0, 0, 0, 0, 0, 0],
    [0, 0, 0, 0, 0, 0, 0, 0]]

  type Scancode = x: int | 0 <= x < 0x100

  predicate ShiftDown(sc: Scancode) { sc == 0x2A || sc == 0x36 }
  predicate ShiftUp(sc: Scancode) { sc == 0xAA || sc == 0xB6 }

  lemma TableSizes()
    ensures |PLAIN| == |SHIFTED| == 16
    ensures forall i :: 0 <= i < 16 ==> |PLAIN[i]| == |SHIFTED[i]| == 8
  {
  }

  /** The character of a key press, 0 for none. */
  function CharOf(sc: Scancode, shift: bool): int {
    TableSizes();
    if sc >= 0x80 then 0
    else if sc == 0x0E then 0x08
    else if sc == 0x1C then 0x0A
    else if sc == 0x48 then 0x10
    else if sc == 0x50 then 0x11
    else if sc == 0x4B then 0x12
    else if sc == 0x4D then 0x13
    else if shift then SHIFTED[sc / 8][sc % 8] else PLAIN[sc / 8][sc % 8]
  }

  // ---- What the keys type ----

  /** Key `first + i` types `text[i]`, for every `i`. */
  ghost predicate Types(first: Scancode, shift: bool, text: string) {
    first + |text| <= 0x80 && forall i :: 0 <= i < |text| ==> CharOf(first + i, shift) == text[i] as int
  }

  /** The keys of the four rows, without and with shift. */
  lemma Layout()
    ensures Types(0x02, false, "1234567890-=") && Types(0x02, true, "!@#$%^&*()_+")
    ensures Types(0x10, false, "qwertyuiop[]") && Types(0x10, true, "QWERTYUIOP{}")
    ensures Types(0x1E, false, "asdfghjkl;'`") && Types(0x1E, true, "ASDFGHJKL:\"~")
    ensures Types(0x2B, false, "\\zxcvbnm,./") && Types(0x2B, true, "|ZXCVBNM<>?")
  {
    NumberRow();
    TopRow();
    HomeRow();
    BottomRow();
  }

  lemma NumberRow()
    ensures Types(0x02, false, "1234567890-=") && Types(0x02, true, "!@#$%^&*()_+")
  {
  }

  lemma TopRow()
    ensures Types(0x10, false, "qwertyuiop[]") && Types(0x10, true, "QWERTYUIOP{}")
  {
  }

  lemma HomeRow()
    ensures Types(0x1E, false, "asdfghjkl;'`") && Types(0x1E, true, "ASDFGHJKL:\"~")
  {
  }

  lemma BottomRow()
    ensures Types(0x2B, false, "\\zxcvbnm,./") && Types(0x2B, true, "|ZXCVBNM<>?")
  {
  }

  /** The keys that shift does not change: control keys, arrows, space and the number pad. */
  lemma OtherKeys(shift: bool)
    ensures CharOf(0x0E, shift) == 0x08 && CharOf(0x0F, shift) == 0x09 && CharOf(0x1C, shift) == 0x0A
    ensures CharOf(0x48, shift) == 0x10 && CharOf(0x50, shift) == 0x11
    ensures CharOf(0x4B, shift) == 0x12 && CharOf(0x4D, shift) == 0x13
    ensures CharOf(0x37, shift) == '*' as int && CharOf(0x39, shift) == ' ' as int
    ensures CharOf(0x47, shift) == '7' as int && CharOf(0x49, shift) == '9' as int && CharOf(0x4A, shift) == '-' as int
    ensures CharOf(0x4C, shift) == '5' as int && CharOf(0x4E, shift) == '+' as int && CharOf(0x4F, shift) == '1' as int
    ensures CharOf(0x51, shift) == '3' as int && CharOf(0x52, shift) == '0' as int && CharOf(0x53, shift) == '.' as int
  {
  }

  /** No other key types anything, and no release does. */
  lemma SilentKeys(sc: Scancode, shift: bool)
    requires sc < 0x02 || sc in {0x1D, 0x2A, 0x36, 0x38} || 0x3A <= sc < 0x47 || 0x54 <= sc
    ensures CharOf(sc, shift) == 0
  {
    if 0x3A <= sc < 0x47 {
      assert sc / 8 == 7 || sc / 8 == 8;
    } else if 0x54 <= sc < 0x80 {
      assert sc / 8 == 10 || sc / 8 == 11 || sc / 8 == 12 || sc / 8 == 13 || sc / 8 == 14 || sc / 8 == 15;
    }
  }

  lemma TypedIn2(c: int)
    requires 0x20 <= c < 0x30
    ensures Typable(c)
  {
    if c == 0x20 {
      assert CharOf(0x39, false) == c;
    } else if c == 0x21 {
      assert CharOf(0x02, true) == c;
    } else if c == 0x22 {
      assert CharOf(0x28, true) == c;
    } else if c == 0x23 {
      assert CharOf(0x04, true) == c;
    } else if c == 0x24 {
      assert CharOf(0x05, true) == c;
    } else if c == 0x25 {
      assert CharOf(0x06, true) == c;
    } else if c == 0x26 {
      assert CharOf(0x08, true) == c;
    } else if c == 0x27 {
      assert CharOf(0x28, false) == c;
    } else if c == 0x28 {
      assert CharOf(0x0A, true) == c;
    } else if c == 0x29 {
      assert CharOf(0x0B, true) == c;
    } else if c == 0x2A {
      assert CharOf(0x09, true) == c;
    } else if c == 0x2B {
      assert CharOf(0x0D, true) == c;
    } else if c == 0x2C {
      assert CharOf(0x33, false) == c;
    } else if c == 0x2D {
      assert CharOf(0x0C, false) == c;
    } else if c == 0x2E {
      assert CharOf(0x34, false) == c;
    } else if c == 0x2F {
      assert CharOf(0x35, false) == c;
    }
  }

  lemma TypedIn3(c: int)
    requires 0x30 <= c < 0x40
    ensures Typable(c)
  {
    if c == 0x30 {
      assert CharOf(0x0B, false) == c;
    } else if c == 0x31 {
      assert CharOf(0x02, false) == c;
    } else if c == 0x32 {
      assert CharOf(0x03, false) == c;
    } else if c == 0x33 {
      assert CharOf(0x04, false) == c;
    } else if c == 0x34 {
      assert CharOf(0x05, false) == c;
    } else if c == 0x35 {
      assert CharOf(0x06, false) == c;
    } else if c == 0x36 {
      assert CharOf(0x07, false) == c;
    } else if c == 0x37 {
      assert CharOf(0x08, false) == c;
    } else if c == 0x38 {
      assert CharOf(0x09, false) == c;
    } else if c == 0x39 {
      assert CharOf(0x0A, false) == c;
    } else if c == 0x3A {
      assert CharOf(0x27, true) == c;
    } else if c == 0x3B {
      assert CharOf(0x27, false) == c;
    } else if c == 0x3C {
      assert CharOf(0x33, true) == c;
    } else if c == 0x3D {
      assert CharOf(0x0D, false) == c;
    } else if c == 0x3E {
      assert CharOf(0x34, true) == c;
    } else if c == 0x3F {
      assert CharOf(0x35, true) == c;
    }
  }

  lemma TypedIn4(c: int)
    requires 0x40 <= c < 0x50
    ensures Typable(c)
  {
    if c == 0x40 {
      assert CharOf(0x03, true) == c;
    } else if c == 0x41 {
      assert CharOf(0x1E, true) == c;
    } else if c == 0x42 {
      assert CharOf(0x30, true) == c;
    } else if c == 0x43 {
      assert CharOf(0x2E, true) == c;
    } else if c == 0x44 {
      assert CharOf(0x20, true) == c;
    } else if c == 0x45 {
      assert CharOf(0x12, true) == c;
    } else if c == 0x46 {
      assert CharOf(0x21, true) == c;
    } else if c == 0x47 {
      assert CharOf(0x22, true) == c;
    } else if c == 0x48 {
      assert CharOf(0x23, true) == c;
    } else if c == 0x49 {
      assert CharOf(0x17, true) == c;
    } else if c == 0x4A {
      assert CharOf(0x24, true) == c;
    } else if c == 0x4B {
      assert CharOf(0x25, true) == c;
    } else if c == 0x4C {
      assert CharOf(0x26, true) == c;
    } else if c == 0x4D {
      assert CharOf(0x32, true) == c;
    } else if c == 0x4E {
      assert CharOf(0x31, true) == c;
    } else if c == 0x4F {
      assert CharOf(0x18, true) == c;
    }
  }

  lemma TypedIn5(c: int)
    requires 0x50 <= c < 0x60
    ensures Typable(c)
  {
    if c == 0x50 {
      assert CharOf(0x19, true) == c;
    } else if c == 0x51 {
      assert CharOf(0x10, true) == c;
    } else if c == 0x52 {
      assert CharOf(0x13, true) == c;
    } else if c == 0x53 {
      assert CharOf(0x1F, true) == c;
    } else if c == 0x54 {
      assert CharOf(0x14, true) == c;
    } else if c == 0x55 {
      assert CharOf(0x16, true) == c;
    } else if c == 0x56 {
      assert CharOf(0x2F, true) == c;
    } else if c == 0x57 {
      assert CharOf(0x11, true) == c;
    } else if c == 0x58 {
      assert CharOf(0x2D, true) == c;
    } else if c == 0x59 {
      assert CharOf(0x15, true) == c;
    } else if c == 0x5A {
      assert CharOf(0x2C, true) == c;
    } else if c == 0x5B {
      assert CharOf(0x1A, false) == c;
    } else if c == 0x5C {
      assert CharOf(0x2B, false) == c;
    } else if c == 0x5D {
      assert CharOf(0x1B, false) == c;
    } else if c == 0x5E {
      assert CharOf(0x07, true) == c;
    } else if c == 0x5F {
      assert CharOf(0x0C, true) == c;
    }
  }

  lemma TypedIn6(c: int)
    requires 0x60 <= c < 0x70
    ensures Typable(c)
  {
    if c == 0x60 {
      assert CharOf(0x29, false) == c;
    } else if c == 0x61 {
      assert CharOf(0x1E, false) == c;
    } else if c == 0x62 {
      assert CharOf(0x30, false) == c;
    } else if c == 0x63 {
      assert CharOf(0x2E, false) == c;
    } else if c == 0x64 {
      assert CharOf(0x20, false) == c;
    } else if c == 0x65 {
      assert CharOf(0x12, false) == c;
    } else if c == 0x66 {
      assert CharOf(0x21, false) == c;
    } else if c == 0x67 {
      assert CharOf(0x22, false) == c;
    } else if c == 0x68 {
      assert CharOf(0x23, false) == c;
    } else if c == 0x69 {
      assert CharOf(0x17, false) == c;
    } else if c == 0x6A {
      assert CharOf(0x24, false) == c;
    } else if c == 0x6B {
      assert CharOf(0x25, false) == c;
    } else if c == 0x6C {
      assert CharOf(0x26, false) == c;
    } else if c == 0x6D {
      assert CharOf(0x32, false) == c;
    } else if c == 0x6E {
      assert CharOf(0x31, false) == c;
    } else if c == 0x6F {
      assert CharOf(0x18, false) == c;
    }
  }

  lemma TypedIn7(c: int)
    requires 0x70 <= c < 0x7F
    ensures Typable(c)
  {
    if c == 0x70 {
      assert CharOf(0x19, false) == c;
    } else if c == 0x71 {
      assert CharOf(0x10, false) == c;
    } else if c == 0x72 {
      assert CharOf(0x13, false) == c;
    } else if c == 0x73 {
      assert CharOf(0x1F, false) == c;
    } else if c == 0x74 {
      assert CharOf(0x14, false) == c;
    } else if c == 0x75 {
      assert CharOf(0x16, false) == c;
    } else if c == 0x76 {
      assert CharOf(0x2F, false) == c;
    } else if c == 0x77 {
      assert CharOf(0x11, false) == c;
    } else if c == 0x78 {
      assert CharOf(0x2D, false) == c;
    } else if c == 0x79 {
      assert CharOf(0x15, false) == c;
    } else if c == 0x7A {
      assert CharOf(0x2C, false) == c;
    } else if c == 0x7B {
      assert CharOf(0x1A, true) == c;
    } else if c == 0x7C {
      assert CharOf(0x2B, true) == c;
    } else if c == 0x7D {
      assert CharOf(0x1B, true) == c;
    } else if c == 0x7E {
      assert CharOf(0x29, true) == c;
    }
  }

  ghost predicate Typable(c: int) {
    exists sc: Scancode, shift :: 0x02 <= sc <= 0x39 && CharOf(sc, shift) == c
  }

  /** Every printable ASCII character is typed by some key. */
  lemma AllTypable(c: int)
    requires 0x20 <= c < 0x7F
    ensures Typable(c)
  {
    if c < 0x30 {
      TypedIn2(c);
    } else if c < 0x40 {
      TypedIn3(c);
    } else if c < 0x50 {
      TypedIn4(c);
    } else if c < 0x60 {
      TypedIn5(c);
    } else if c < 0x70 {
      TypedIn6(c);
    } else {
      TypedIn7(c);
    }
  }

  // ---- The simple form ----

  /** Whether shift is held after the scancodes `scs`: the last shift key event decides. */
  ghost function ShiftAfter(scs: seq<Scancode>): bool {
    if scs == [] then false
    else
      var sc := scs[|scs| - 1];
      if ShiftDown(sc) then true else if ShiftUp(sc) then false else ShiftAfter(scs[..|scs| - 1])
  }

  /** The character that the last of `scs` types, if any. */
  ghost function Typed(scs: seq<Scancode>): int
    requires scs != []
  {
    var sc := scs[|scs| - 1];
    if ShiftDown(sc) || ShiftUp(sc) then 0 else CharOf(sc, ShiftAfter(scs[..|scs| - 1]))
  }

  /** The buffer index of the `j`th accepted character. */
  function Slot(j: nat): (k: nat)
    ensures k < BUFFER_SIZE
  {
    j % BUFFER_SIZE
  }

  lemma SlotNext(j: nat)
    ensures Slot(j + 1) == (Slot(j) + 1) % BUFFER_SIZE
  {
  }

  lemma SlotApart(i: nat, j: nat)
    requires i < j < i + BUFFER_SIZE
    ensures Slot(i) != Slot(j)
  {
  }

  class Keyboard {
    const keyBuffer: array<int>
    var bufferStart: nat
    var bufferEnd: nat
    var shiftPressed: bool
    // History: the scancodes handled, the characters that went into the buffer, and those that came out.
    ghost var scancodes: seq<Scancode>
    ghost var accepted: seq<int>
    ghost var delivered: seq<int>

    /** What came out, followed by what is pending in the buffer, is what went in, in order. */
    ghost predicate Valid()
      reads this, keyBuffer
    {
      && keyBuffer.Length == BUFFER_SIZE
      && delivered <= accepted && |accepted| - |delivered| < BUFFER_SIZE
      && bufferStart == Slot(|delivered|) && bufferEnd == Slot(|accepted|)
      && (forall j :: |delivered| <= j < |accepted| ==> keyBuffer[Slot(j)] == accepted[j])
      && (forall j :: 0 <= j < |accepted| ==> accepted[j] != 0)
      && shiftPressed == ShiftAfter(scancodes)
    }

    constructor ()
      ensures Valid() && fresh(keyBuffer) && scancodes == [] && accepted == [] && delivered == []
    {
      keyBuffer := new int[BUFFER_SIZE](_ => 0);
      bufferStart, bufferEnd, shiftPressed := 0, 0, false;
      scancodes, accepted, delivered := [], [], [];
    }

    /** A character is dropped exactly when 255 are pending. */
    method BufferAdd(c: int)
      requires Valid() && c != 0
      modifies this`bufferEnd, this`accepted, keyBuffer
      ensures Valid()
      ensures accepted == if |old(accepted)| - |delivered| == 255 then old(accepted)
              else old(accepted) + [c]
    {
      hide Slot, ShiftAfter;
      SlotNext(|accepted|);
      var next := (bufferEnd + 1) % BUFFER_SIZE;
      FullWhen(|delivered|, |accepted| + 1);
      if next != bufferStart {
        Untouched();
        keyBuffer[bufferEnd] := c;
        bufferEnd := next;
        accepted := accepted + [c];
      }
    }

    lemma FullWhen(d: nat, a: nat)
      requires d < a <= d + BUFFER_SIZE
      ensures Slot(a) == Slot(d) <==> a == d + BUFFER_SIZE
    {
    }

    lemma Untouched()
      requires Valid()
      ensures forall j: nat :: |delivered| <= j < |accepted| ==> Slot(j) != bufferEnd
    {
      hide Slot;
      forall j: nat | |delivered| <= j < |accepted| ensures Slot(j) != bufferEnd { SlotApart(j, |accepted|); }
    }

    /** keyboard_handler, without the echo: one scancode types the character that the layout and shift give. */
    method Handle(sc: Scancode)
      requires Valid()
      modifies this`shiftPressed, this`bufferEnd, this`accepted, this`scancodes, keyBuffer
      ensures Valid() && scancodes == old(scancodes) + [sc]
      ensures accepted == old(accepted) +
                if Typed(scancodes) == 0 || |old(accepted)| - |delivered| == 255 then []
                else [Typed(scancodes)]
    {
      hide Slot, PLAIN, SHIFTED;
      ghost var before := scancodes;
      scancodes := scancodes + [sc];
      assert scancodes[..|scancodes| - 1] == before;
      if sc == 0x2A || sc == 0x36 {
        shiftPressed := true;
        return;
      }
      if sc == 0xAA || sc == 0xB6 {
        shiftPressed := false;
        return;
      }
      if sc >= 0x80 {
        return;
      }
      var c := CharOf(sc, shiftPressed);
      if c != 0 {
        BufferAdd(c);
      }
    }

    /** The interrupts between two steps of the consumer. */
    method Interrupts(scs: seq<Scancode>)
      requires Valid()
      modifies this`shiftPressed, this`bufferEnd, this`accepted, this`scancodes, keyBuffer
      ensures Valid() && old(accepted) <= accepted && scancodes == old(scancodes) + scs
    {
      for i := 0 to |scs|
        invariant Valid() && old(accepted) <= accepted && scancodes == old(scancodes) + scs[..i]
      {
        Handle(scs[i]);
      }
    }

    /**
     buffer_get, with the interrupts `irqs(n)` before its `n`th step: it delivers the oldest character
     that was not delivered yet, or 0 if there was none when it looked.
     */
    method BufferGet(irqs: nat -> seq<Scancode>) returns (c: int)
      requires Valid()
      modifies this, keyBuffer
      ensures Valid() && old(accepted) <= accepted
      ensures if c == 0 then delivered == old(delivered) else delivered == old(delivered) + [c]
      ensures |old(accepted)| > |old(delivered)| ==> c != 0
      ensures scancodes == old(scancodes) + irqs(0) + (if c == 0 then [] else irqs(1) + irqs(2))
    {
      hide Slot, ShiftAfter;
      Interrupts(irqs(0));
      NothingPending(|delivered|, |accepted|);
      if bufferStart == bufferEnd {
        return 0;
      }
      Interrupts(irqs(1));
      c := keyBuffer[bufferStart];
      Interrupts(irqs(2));
      SlotNext(|delivered|);
      bufferStart := (bufferStart + 1) % BUFFER_SIZE;
      delivered := delivered + [c];
    }

    lemma NothingPending(d: nat, a: nat)
      requires d <= a < d + BUFFER_SIZE
      ensures Slot(d) == Slot(a) <==> d == a
    {
    }
  }

  /** A key press after a press or a release of a shift key, with room in the buffer. */
  method Press(kb: Keyboard, shiftKey: Scancode, sc: Scancode)
    requires kb.Valid() && |kb.accepted| - |kb.delivered| < 255
    requires shiftKey in {0x2A, 0x36, 0xAA, 0xB6} && sc !in {0x2A, 0x36, 0xAA, 0xB6}
    modifies kb, kb.keyBuffer
    ensures kb.Valid() && kb.delivered == old(kb.delivered)
    ensures var shift, n := shiftKey < 0x80, |old(kb.accepted)|;
      && kb.accepted == old(kb.accepted) + (if CharOf(sc, shift) == 0 then [] else [CharOf(sc, shift)])
      && (0x02 <= sc < 0x0E ==>
            kb.accepted[n..] == [(if shift then "!@#$%^&*()_+" else "1234567890-=")[sc - 0x02] as int])
      && (0x10 <= sc < 0x1C ==>
            kb.accepted[n..] == [(if shift then "QWERTYUIOP{}" else "qwertyuiop[]")[sc - 0x10] as int])
      && (0x1E <= sc < 0x2A ==>
            kb.accepted[n..] == [(if shift then "ASDFGHJKL:\"~" else "asdfghjkl;'`")[sc - 0x1E] as int])
      && (0x2B <= sc < 0x36 ==>
            kb.accepted[n..] == [(if shift then "|ZXCVBNM<>?" else "\\zxcvbnm,./")[sc - 0x2B] as int])
      && (0x80 <= sc ==> kb.accepted == old(kb.accepted))
  {
    hide CharOf;
    kb.Handle(shiftKey);
    LastShift(kb.scancodes);
    kb.Handle(sc);
    LastKey(kb.scancodes);
    RowKeys(sc, shiftKey < 0x80);
    if sc >= 0x80 { SilentKeys(sc, shiftKey < 0x80); }
  }

  lemma LastShift(scs: seq<Scancode>)
    requires scs != [] && scs[|scs| - 1] in {0x2A, 0x36, 0xAA, 0xB6}
    ensures Typed(scs) == 0 && ShiftAfter(scs) == (scs[|scs| - 1] < 0x80)
  {
    hide CharOf;
  }

  lemma LastKey(scs: seq<Scancode>)
    requires |scs| > 1 && scs[|scs| - 1] !in {0x2A, 0x36, 0xAA, 0xB6} && scs[|scs| - 2] in {0x2A, 0x36, 0xAA, 0xB6}
    ensures Typed(scs) == CharOf(scs[|scs| - 1], scs[|scs| - 2] < 0x80)
  {
    hide CharOf;
    LastShift(scs[..|scs| - 1]);
  }

  /** The keys of the four rows, one at a time. */
  lemma RowKeys(sc: Scancode, shift: bool)
    ensures 0x02 <= sc < 0x0E ==>
              CharOf(sc, shift) == (if shift then "!@#$%^&*()_+" else "1234567890-=")[sc - 0x02] as int > 0
    ensures 0x10 <= sc < 0x1C ==>
              CharOf(sc, shift) == (if shift then "QWERTYUIOP{}" else "qwertyuiop[]")[sc - 0x10] as int > 0
    ensures 0x1E <= sc < 0x2A ==>
              CharOf(sc, shift) == (if shift then "ASDFGHJKL:\"~" else "asdfghjkl;'`")[sc - 0x1E] as int > 0
    ensures 0x2B <= sc < 0x36 ==>
              CharOf(sc, shift) == (if shift then "|ZXCVBNM<>?" else "\\zxcvbnm,./")[sc - 0x2B] as int > 0
  {
    hide CharOf;
    Layout();
    if 0x02 <= sc < 0x0E { TypesAt(0x02, shift, if shift then "!@#$%^&*()_+" else "1234567890-=", sc - 0x02); }
    if 0x10 <= sc < 0x1C { TypesAt(0x10, shift, if shift then "QWERTYUIOP{}" else "qwertyuiop[]", sc - 0x10); }
    if 0x1E <= sc < 0x2A { TypesAt(0x1E, shift, if shift then "ASDFGHJKL:\"~" else "asdfghjkl;'`", sc - 0x1E); }
    if 0x2B <= sc < 0x36 { TypesAt(0x2B, shift, if shift then "|ZXCVBNM<>?" else "\\zxcvbnm,./", sc - 0x2B); }
  }

  lemma TypesAt(first: Scancode, shift: bool, text: string, i: nat)
    requires Types(first, shift, text) && i < |text|
    requires forall i :: 0 <= i < |text| ==> text[i] as int > 0
    ensures CharOf(first + i, shift) == text[i] as int > 0
  {
  }

  /** Letter keys type small letters, and with shift the corresponding capitals. */
  lemma LettersShifted(sc: Scancode)
    requires 0x10 <= sc < 0x1A || 0x1E <= sc < 0x27 || 0x2C <= sc < 0x33
    ensures 0x61 <= CharOf(sc, false) <= 0x7A && CharOf(sc, true) == CharOf(sc, false) - 0x20
  {
    if sc < 0x15 {
      assert sc == 0x10 || sc == 0x11 || sc == 0x12 || sc == 0x13 || sc == 0x14;
    } else if sc < 0x1A {
      assert sc == 0x15 || sc == 0x16 || sc == 0x17 || sc == 0x18 || sc == 0x19;
    } else if sc < 0x23 {
      assert sc == 0x1E || sc == 0x1F || sc == 0x20 || sc == 0x21 || sc == 0x22;
    } else if sc < 0x27 {
      assert sc == 0x23 || sc == 0x24 || sc == 0x25 || sc == 0x26;
    } else if sc < 0x30 {
      assert sc == 0x2C || sc == 0x2D || sc == 0x2E || sc == 0x2F;
    } else {
      assert sc == 0x30 || sc == 0x31 || sc == 0x32;
    }
  }
}
