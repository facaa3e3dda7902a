/** kernel/drivers/keyboard/keyboard.c: scancodes to characters, and the ring buffer between the
    interrupt handler and the reader. */
module Keyboard {
  import opened Words

  const BUFFER_SIZE: nat := 256
  const CODES: nat := 0x3a

  const UNSHIFTED: string :=
    "\0\0" + "1234567890-=\U{0008}\t" + "qwertyuiop[]\n" + "\0" + "asdfghjkl;'`" + "\0" + "\\zxcvbnm,./" + "\0\0\0 "

  const SHIFTED: string :=
    "\0\0" + "!@#$%^&*()_+\U{0008}\t" + "QWERTYUIOP{}\n" + "\0" + "ASDFGHJKL:\"~" + "\0" + "|ZXCVBNM<>?" + "\0\0\0 "

  lemma TableSizes()
    ensures |UNSHIFTED| == CODES && |SHIFTED| == CODES
  {
  }

  type Scancode = s: nat | s < 256

  predicate IsShift(s: Scancode) { s % 128 == 0x2a || s % 128 == 0x36 }

  predicate IsRelease(s: Scancode) { s >= 128 }

  function ShiftAfter(held: bool, s: Scancode): bool {
    if IsShift(s) then !IsRelease(s) else held
  }

  /** The character that a scancode stands for, if any. */
  function Decoded(held: bool, s: Scancode): Option<char> {
    TableSizes();
    if IsShift(s) || IsRelease(s) || s >= CODES then None
    else
      var c := if held then SHIFTED[s] else UNSHIFTED[s];
      if c == '\0' then None else Some(c)
  }

  lemma NoCharacter(held: bool, s: Scancode)
    ensures IsShift(s) || IsRelease(s) || s >= CODES ==> Decoded(held, s) == None
  {
  }

  /** The key with that scancode types these characters, without and with shift. */
  predicate Key(s: Scancode, plain: char, shifted: char) {
    Decoded(false, s) == Some(plain) && Decoded(true, s) == Some(shifted)
  }

  /** The keyboard of Scan Code Set 1, row by row. */
  lemma NumberRow(k: nat)
    requires k < 14
    ensures Key(0x02 + k, "1234567890-=\U{0008}\t"[k], "!@#$%^&*()_+\U{0008}\t"[k])
  {
  }

  lemma UpperRow(k: nat)
    requires k < 13
    ensures Key(0x10 + k, "qwertyuiop[]\n"[k], "QWERTYUIOP{}\n"[k])
  {
  }

  lemma HomeRow(k: nat)
    requires k < 12
    ensures Key(0x1e + k, "asdfghjkl;'`"[k], "ASDFGHJKL:\"~"[k])
  {
  }

  lemma LowerRow(k: nat)
    requires k < 11
    ensures Key(0x2b + k, "\\zxcvbnm,./"[k], "|ZXCVBNM<>?"[k])
  {
  }

  /** The space bar; no other key types anything. */
  lemma OtherKeys(held: bool, s: Scancode)
    ensures Key(0x39, ' ', ' ')
    ensures s < 2 || s == 0x1d || s == 0x2a || 0x36 <= s <= 0x38 || s > 0x39 ==> Decoded(held, s) == None
  {
  }

  /** Every printable character of ASCII has a key. */
  lemma EveryCharacterHasAKey(c: char) returns (held: bool, s: Scancode)
    requires ' ' <= c <= '~'
    ensures Decoded(held, s) == Some(c)
  {
    hide Decoded;
    if c == ' ' {
      OtherKeys(false, 0x39);
      held, s := false, 0x39;
    } else if c in "1234567890-=\U{0008}\t" || c in "!@#$%^&*()_+\U{0008}\t" {
      var k :| 0 <= k < 14 && ("1234567890-=\U{0008}\t"[k] == c || "!@#$%^&*()_+\U{0008}\t"[k] == c);
      NumberRow(k);
      held, s := "1234567890-=\U{0008}\t"[k] != c, 0x02 + k;
    } else if c in "qwertyuiop[]\n" || c in "QWERTYUIOP{}\n" {
      var k :| 0 <= k < 13 && ("qwertyuiop[]\n"[k] == c || "QWERTYUIOP{}\n"[k] == c);
      UpperRow(k);
      held, s := "qwertyuiop[]\n"[k] != c, 0x10 + k;
    } else if c in "asdfghjkl;'`" || c in "ASDFGHJKL:\"~" {
      var k :| 0 <= k < 12 && ("asdfghjkl;'`"[k] == c || "ASDFGHJKL:\"~"[k] == c);
      HomeRow(k);
      held, s := "asdfghjkl;'`"[k] != c, 0x1e + k;
    } else if c in "\\zxcvbnm,./" || c in "|ZXCVBNM<>?" {
      var k :| 0 <= k < 11 && ("\\zxcvbnm,./"[k] == c || "|ZXCVBNM<>?"[k] == c);
      LowerRow(k);
      held, s := "\\zxcvbnm,./"[k] != c, 0x2b + k;
    }
  }

  /** The tables, for a code that is in them. */
  method Translate(held: bool, code: Scancode) returns (c: char)
    requires code < CODES && !IsShift(code)
    ensures Decoded(held, code) == if c == '\0' then None else Some(c)
  {
    TableSizes();
    c := if held then SHIFTED[code] else UNSHIFTED[code];
  }

  /** What the user has typed and not yet read: at most 255 characters, later ones are dropped. */
  datatype Typed = Typed(queue: string, shiftHeld: bool)
  {
    function Key(s: Scancode): Typed {
      var c := Decoded(shiftHeld, s);
      Typed(if c.Some? && |queue| + 1 < BUFFER_SIZE then queue + [c.value] else queue, ShiftAfter(shiftHeld, s))
    }

    function Keys(codes: seq<Scancode>): Typed
      decreases |codes|
    {
      if codes == [] then this else Keys(codes[..|codes| - 1]).Key(codes[|codes| - 1])
    }

    function Read(): Typed
      requires queue != ""
    {
      this.(queue := queue[1..])
    }
  }

  /** Typing only appends, and nothing that is queued is the zero that stands for an empty queue. */
  lemma {:induction false} KeysAppend(t: Typed, codes: seq<Scancode>)
    requires '\0' !in t.queue
    ensures t.queue <= t.Keys(codes).queue && '\0' !in t.Keys(codes).queue
    decreases |codes|
  {
    if codes != [] {
      KeysAppend(t, codes[..|codes| - 1]);
    }
  }

  /** Shift is held exactly when the last shift scancode was a press. */
  lemma {:induction false} ShiftIsTheLastPress(t: Typed, codes: seq<Scancode>, k: nat)
    requires k < |codes| && IsShift(codes[k]) && forall j :: k < j < |codes| ==> !IsShift(codes[j])
    ensures t.Keys(codes).shiftHeld <==> !IsRelease(codes[k])
    decreases |codes|
  {
    if k < |codes| - 1 {
      ShiftIsTheLastPress(t, codes[..|codes| - 1], k);
    }
  }

  class Driver {
    const buffer: array<char>
    var head: nat
    var tail: nat
    var shiftHeld: bool
    ghost var queue: string

    function Slot(k: nat): nat
      reads `tail
    {
      if tail + k < BUFFER_SIZE then tail + k else tail + k - BUFFER_SIZE
    }

    ghost predicate Valid()
      reads this, buffer
    {
      && buffer.Length == BUFFER_SIZE && head < BUFFER_SIZE && tail < BUFFER_SIZE
      && |queue| < BUFFER_SIZE && head == Slot(|queue|) && '\0' !in queue
      && forall k :: 0 <= k < |queue| ==> buffer[Slot(k)] == queue[k]
    }

    ghost function State(): Typed
      reads this
    {
      Typed(queue, shiftHeld)
    }

    constructor ()
      ensures Valid() && State() == Typed("", false)
    {
      buffer := new char[BUFFER_SIZE];
      head, tail, shiftHeld, queue := 0, 0, false, "";
    }

    /** buffer_push */
    method Push(c: char)
      requires Valid() && c != '\0'
      modifies `head, `queue, buffer
      ensures Valid() && queue == if |old(queue)| < 255 then old(queue) + [c] else old(queue)
    {
      var next := (head + 1) % BUFFER_SIZE;
      if next == tail {
        return;
      }
      buffer[head] := c;
      head := next;
      queue := queue + [c];
    }

    /** keyboard_isr, for the scancode read from the controller. */
    method Isr(scancode: Scancode)
      requires Valid()
      modifies `head, `queue, `shiftHeld, buffer
      ensures Valid() && State() == old(State()).Key(scancode)
    {
      hide Decoded;
      NoCharacter(shiftHeld, scancode);
      var released := scancode >= 128;
      var code := scancode % 128;
      if code == 0x2a || code == 0x36 {
        shiftHeld := !released;
        return;
      }
      if released || code >= CODES {
        return;
      }
      var c := Translate(shiftHeld, code);
      if c != '\0' {
        Push(c);
      }
    }

    method Isrs(scancodes: seq<Scancode>)
      requires Valid()
      modifies `head, `queue, `shiftHeld, buffer
      ensures Valid() && State() == old(State()).Keys(scancodes) && old(queue) <= queue
    {
      for i := 0 to |scancodes|
        invariant Valid() && State() == old(State()).Keys(scancodes[..i])
      {
        Isr(scancodes[i]);
        assert scancodes[..i + 1][..i] == scancodes[..i];
      }
      assert scancodes[..|scancodes|] == scancodes;
      KeysAppend(old(State()), scancodes);
    }

    /** keyboard_read_char, with any interrupts between its comparison of the indices, its read of the
        buffer and its store of the new tail: it returns the oldest unread character, and what is left
        is the same as if it had been read after all of them. */
    method ReadChar(beforeFetch: seq<Scancode>, beforeAdvance: seq<Scancode>) returns (c: char)
      requires Valid()
      modifies `head, `tail, `queue, `shiftHeld, buffer
      ensures Valid()
      ensures c == '\0' <==> old(queue) == ""
      ensures old(queue) == "" ==> State() == old(State())
      ensures old(queue) != "" ==>
                c == old(queue)[0] && old(State()).Keys(beforeFetch).Keys(beforeAdvance).queue != ""
                && State() == old(State()).Keys(beforeFetch).Keys(beforeAdvance).Read()
    {
      if tail == head {
        return '\0';
      }
      Isrs(beforeFetch);
      c := buffer[tail];
      assert c == queue[0];
      Isrs(beforeAdvance);
      Advance();
    }

    method Advance()
      requires Valid() && queue != ""
      modifies `tail, `queue
      ensures Valid() && queue == old(queue)[1..]
    {
      tail := (tail + 1) % BUFFER_SIZE;
      queue := queue[1..];
    }
  }
}
