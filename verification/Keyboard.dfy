/** The keyboard ring: an interrupt handler that fills it and a reader that empties it, in any interleaving. */
module Keyboard {
  import opened Bytes

  const SIZE := 256
  const NONE := '\0'

  // The rows of the keyboard, with what is left and right of them.
  const PLAIN: seq<char> :=
    "\0\0" + "1234567890-=" + "\U{8}\t" + "qwertyuiop" + "[]\n\0" + "asdfghjkl" + ";'`\0\\" + "zxcvbnm" + ",./\0*\0 "

  const SHIFTED: seq<char> :=
    "\0\0" + "!@#$%^&*()_+" + "\U{8}\t" + "QWERTYUIOP" + "{}\n\0" + "ASDFGHJKL" + ":\"~\0|" + "ZXCVBNM" + "<>?\0*\0 "

  /** The variables of the driver. */
  datatype Ring = Ring(buf: seq<char>, read: nat, write: nat, shift: bool)

  ghost predicate InBounds(r: Ring) {
    |r.buf| == SIZE && r.read < SIZE && r.write < SIZE
  }

  function Succ(i: nat): nat {
    (i + 1) % SIZE
  }

  /** What a key press means, or `NONE`. */
  function Decode(code: byte, shift: bool): char {
    if code < |PLAIN| && code < |SHIFTED| then (if shift then SHIFTED[code] else PLAIN[code]) else NONE
  }

  /** The rows of the keyboard, from left to right. */
  lemma RowsOfKeys()
    ensures |PLAIN| == |SHIFTED| == 58
    ensures PLAIN[2..14] == "1234567890-=" && SHIFTED[2..14] == "!@#$%^&*()_+"
    ensures PLAIN[0x10..0x1a] == "qwertyuiop" && SHIFTED[0x10..0x1a] == "QWERTYUIOP"
    ensures PLAIN[0x1e..0x27] == "asdfghjkl" && SHIFTED[0x1e..0x27] == "ASDFGHJKL"
    ensures PLAIN[0x2c..0x33] == "zxcvbnm" && SHIFTED[0x2c..0x33] == "ZXCVBNM"
  {
  }

  /** On the letter keys, shift makes a small letter a capital one. */
  lemma LetterKeys(code: byte)
    requires 0x10 <= code <= 0x19 || 0x1e <= code <= 0x26 || 0x2c <= code <= 0x32
    ensures 'a' <= Decode(code, false) <= 'z'
    ensures Decode(code, true) as int == Decode(code, false) as int - 32
  {
    hide PLAIN, SHIFTED;
    RowsOfKeys();
    if code <= 0x19 {
      assert PLAIN[code] == PLAIN[0x10..0x1a][code - 0x10] && SHIFTED[code] == SHIFTED[0x10..0x1a][code - 0x10];
    } else if code <= 0x26 {
      assert PLAIN[code] == PLAIN[0x1e..0x27][code - 0x1e] && SHIFTED[code] == SHIFTED[0x1e..0x27][code - 0x1e];
    } else {
      assert PLAIN[code] == PLAIN[0x2c..0x33][code - 0x2c] && SHIFTED[code] == SHIFTED[0x2c..0x33][code - 0x2c];
    }
  }

  /** On the number row, it chooses the signs. No code from 58 on is for a character. */
  lemma NumberKeys(code: byte)
    ensures 2 <= code <= 13 ==>
              Decode(code, false) == "1234567890-="[code - 2] && Decode(code, true) == "!@#$%^&*()_+"[code - 2]
    ensures 58 <= code ==> Decode(code, true) == Decode(code, false) == NONE
  {
    hide PLAIN, SHIFTED;
    RowsOfKeys();
    if 2 <= code <= 13 {
      assert PLAIN[code] == PLAIN[2..14][code - 2] && SHIFTED[code] == SHIFTED[2..14][code - 2];
    }
  }

  /** Shift is down from a code 0x2a or 0x36 to a code 0xaa or 0xb6, and no other code changes that; no code from 0x80
      on types anything. */
  lemma ShiftCodes(r: Ring, code: byte)
    requires r.write < |r.buf|
    ensures code == 0x2a || code == 0x36 ==> Handled(r, code) == r.(shift := true)
    ensures code == 0xaa || code == 0xb6 ==> Handled(r, code) == r.(shift := false)
    ensures code != 0x2a && code != 0x36 && code != 0xaa && code != 0xb6 ==> Handled(r, code).shift == r.shift
    ensures 0x80 <= code && code != 0xaa && code != 0xb6 ==> Handled(r, code) == r
  {
  }

  predicate PressesShift(code: byte) {
    code == 0x2a || code == 0x36
  }

  predicate ReleasesShift(code: byte) {
    code == 0xaa || code == 0xb6
  }

  /** The character that a scan code is for, or `NONE`. */
  function Typed(r: Ring, code: byte): char {
    if PressesShift(code) || ReleasesShift(code) || code >= 0x80 then NONE else Decode(code, r.shift)
  }

  /** The effect of `keyboard_irq_handler`. */
  function Handled(r: Ring, code: byte): Ring
    requires r.write < |r.buf|
  {
    if PressesShift(code) then r.(shift := true)
    else if ReleasesShift(code) then r.(shift := false)
    else if Typed(r, code) != NONE && Succ(r.write) != r.read then
      r.(buf := r.buf[r.write := Typed(r, code)], write := Succ(r.write))
    else r
  }

  // ---------- the reader and the handler together ----------

  /** Where `keyboard_getchar` is: at the test of its loop, before reading the buffer, or before advancing the index
      with a character in hand. */
  datatype Phase = Testing | Fetching | Advancing(c: char)

  /** A moment of a run, with all the characters that have been put into the ring and all that have been returned. */
  datatype State = State(ring: Ring, phase: Phase, accepted: seq<char>, delivered: seq<char>)

  /** An interrupt with a scan code, or one step of the reader. */
  datatype Event = Interrupt(code: byte) | Reader

  function Accepts(r: Ring, code: byte): bool {
    Typed(r, code) != NONE && Succ(r.write) != r.read
  }

  function Step(s: State, e: Event): (r: State)
    requires InBounds(s.ring)
    ensures InBounds(r.ring)
  {
    match e
    case Interrupt(code) =>
      s.(ring := Handled(s.ring, code),
         accepted := if Accepts(s.ring, code) then s.accepted + [Typed(s.ring, code)] else s.accepted)
    case Reader =>
      match s.phase
      case Testing => if s.ring.read == s.ring.write then s else s.(phase := Fetching)
      case Fetching => s.(phase := Advancing(s.ring.buf[s.ring.read]))
      case Advancing(c) =>
        s.(ring := s.ring.(read := Succ(s.ring.read)), phase := Testing, delivered := s.delivered + [c])
  }

  /** How many characters are in the ring. */
  function Pending(r: Ring): int {
    if r.read <= r.write then r.write - r.read else r.write + SIZE - r.read
  }

  /** The place of the `k`-th character from the read index on. */
  function Slot(r: Ring, k: nat): nat {
    if r.read + k < SIZE then r.read + k else r.read + k - SIZE
  }

  /** The ring holds what has been accepted and not been delivered, in order. */
  ghost predicate Holds(r: Ring, pending: seq<char>) {
    && InBounds(r) && |pending| == Pending(r) < SIZE
    && forall k :: 0 <= k < |pending| ==> r.buf[Slot(r, k)] == pending[k]
  }

  /** What every step keeps. */
  ghost predicate Sound(s: State) {
    && InBounds(s.ring)
    && s.delivered <= s.accepted && Holds(s.ring, s.accepted[|s.delivered|..])
    && match s.phase
       case Testing => true
       case Fetching => s.delivered < s.accepted
       case Advancing(c) => s.delivered < s.accepted && c == s.accepted[|s.delivered|]
  }

  /** A character is accepted exactly if fewer than 255 are pending. */
  lemma AcceptedIff(s: State, code: byte)
    requires Sound(s) && Typed(s.ring, code) != NONE
    ensures Accepts(s.ring, code) <==> Pending(s.ring) < SIZE - 1
    ensures |s.accepted| - |s.delivered| == Pending(s.ring) <= SIZE - 1
  {
    hide Decode;
  }

  /** An interrupt adds at the end. */
  lemma Pushed(r: Ring, pending: seq<char>, c: char)
    requires Holds(r, pending) && Succ(r.write) != r.read
    ensures Holds(r.(buf := r.buf[r.write := c], write := Succ(r.write)), pending + [c])
  {
    var r' := r.(buf := r.buf[r.write := c], write := Succ(r.write));
    forall k | 0 <= k <= |pending|
      ensures r'.buf[Slot(r', k)] == (pending + [c])[k]
    {
      assert Slot(r', k) == Slot(r, k);
    }
  }

  /** The reader takes from the front. */
  lemma Popped(r: Ring, pending: seq<char>)
    requires Holds(r, pending) && pending != []
    ensures r.read != r.write && r.buf[r.read] == pending[0]
    ensures Holds(r.(read := Succ(r.read)), pending[1..])
  {
    var r' := r.(read := Succ(r.read));
    assert Slot(r, 0) == r.read;
    forall k | 0 <= k < |pending| - 1
      ensures r'.buf[Slot(r', k)] == pending[1..][k]
    {
      assert Slot(r', k) == Slot(r, k + 1);
    }
  }

  lemma InterruptSound(s: State, code: byte)
    requires Sound(s)
    ensures Sound(Step(s, Interrupt(code)))
  {
    hide Decode;
    var s', pending := Step(s, Interrupt(code)), s.accepted[|s.delivered|..];
    if Accepts(s.ring, code) {
      Pushed(s.ring, pending, Typed(s.ring, code));
      assert s'.accepted[|s.delivered|..] == pending + [Typed(s.ring, code)];
    } else {
      assert forall k :: 0 <= k < |pending| ==> s'.ring.buf[Slot(s'.ring, k)] == s.ring.buf[Slot(s.ring, k)];
    }
  }

  lemma ReaderSound(s: State)
    requires Sound(s)
    ensures Sound(Step(s, Reader))
  {
    var pending := s.accepted[|s.delivered|..];
    if s.phase.Testing? {
      assert s.ring.read != s.ring.write ==> pending != [];
    } else {
      Popped(s.ring, pending);
      assert s.delivered + [pending[0]] <= s.accepted by {
        assert s.accepted == s.delivered + pending;
      }
      assert s.accepted[|s.delivered| + 1..] == pending[1..];
    }
  }

  lemma StepSound(s: State, e: Event)
    requires Sound(s)
    ensures Sound(Step(s, e))
  {
    hide Sound, Step;
    match e
    case Interrupt(code) => InterruptSound(s, code);
    case Reader => ReaderSound(s);
  }

  function Empty(): Ring {
    Ring(seq(SIZE, _ => NONE), 0, 0, false)
  }

  function Start(): State {
    State(Empty(), Testing, [], [])
  }

  function After(events: seq<Event>): (s: State)
    ensures InBounds(s.ring)
    decreases |events|
  {
    if events == [] then Start() else
    var before := After(events[..|events| - 1]);
    var e := events[|events| - 1];
    Step(before, e)
  }

  lemma {:induction false} RunSound(events: seq<Event>)
    ensures Sound(After(events))
    decreases |events|
  {
    hide Step;
    if events != [] {
      RunSound(events[..|events| - 1]);
      StepSound(After(events[..|events| - 1]), events[|events| - 1]);
    }
  }

  /** Whatever the interleaving: what has been delivered is a prefix of what has been accepted, at most 255
      characters are pending, and the next character typed is dropped exactly if 255 are. */
  lemma EveryRun(events: seq<Event>, code: byte)
    ensures var s := After(events);
            && s.delivered <= s.accepted
            && |s.accepted| - |s.delivered| == Pending(s.ring) <= 255
            && (Typed(s.ring, code) != NONE ==> (Accepts(s.ring, code) <==> |s.accepted| - |s.delivered| < 255))
  {
    hide Decode, After;
    RunSound(events);
    if Typed(After(events).ring, code) != NONE {
      AcceptedIff(After(events), code);
    }
  }

  /** Whether shift is down after these events. */
  function Shift(events: seq<Event>): bool {
    if events == [] then false else
    match events[|events| - 1]
    case Interrupt(code) =>
      if PressesShift(code) then true else if ReleasesShift(code) then false else Shift(events[..|events| - 1])
    case Reader => Shift(events[..|events| - 1])
  }

  /** All the characters typed, whether or not there was room for them. */
  function Offered(events: seq<Event>): seq<char> {
    if events == [] then [] else
    var before := events[..|events| - 1];
    match events[|events| - 1]
    case Interrupt(code) =>
      if PressesShift(code) || ReleasesShift(code) || code >= 0x80 || Decode(code, Shift(before)) == NONE
      then Offered(before)
      else Offered(before) + [Decode(code, Shift(before))]
    case Reader => Offered(before)
  }

  lemma {:induction false} ShiftIs(events: seq<Event>)
    ensures After(events).ring.shift == Shift(events)
    decreases |events|
  {
    hide Decode;
    if events != [] {
      ShiftIs(events[..|events| - 1]);
    }
  }

  /** If the ring is never full, every character typed is accepted, in order, however the reader is interrupted. */
  lemma {:induction false} NothingLost(events: seq<Event>)
    requires forall n :: 0 <= n < |events| ==> Pending(After(events[..n]).ring) < 255
    ensures After(events).accepted == Offered(events)
    decreases |events|
  {
    hide Decode;
    if events != [] {
      var before := events[..|events| - 1];
      assert forall n :: 0 <= n < |before| ==> before[..n] == events[..n];
      NothingLost(before);
      ShiftIs(before);
      RunSound(before);
      var e, s := events[|events| - 1], After(before);
      if e.Interrupt? && Typed(s.ring, e.code) != NONE {
        AcceptedIff(s, e.code);
      }
    }
  }

  // ---------- the code ----------

  class Driver {
    const buffer: array<char>
    var read: nat
    var write: nat
    var shift: bool

    ghost predicate Valid()
      reads this
    {
      buffer.Length == SIZE && read < SIZE && write < SIZE
    }

    ghost function Now(): Ring
      reads this, buffer
    {
      Ring(buffer[..], read, write, shift)
    }

    /** The variables as they start out. */
    constructor Init()
      ensures Valid() && Now() == Empty()
    {
      buffer := new char[SIZE](_ => NONE);
      read, write, shift := 0, 0, false;
    }

    /** `keyboard_irq_handler`. */
    method Handle(code: byte)
      requires Valid()
      modifies this, buffer
      ensures Valid() && Now() == Handled(old(Now()), code)
    {
      hide Decode;
      if code == 0x2a || code == 0x36 {
        shift := true;
      } else if code == 0xaa || code == 0xb6 {
        shift := false;
      } else if code < 0x80 {
        var ascii := Decode(code, shift);
        if ascii != NONE {
          var next := (write + 1) % SIZE;
          if next != read {
            buffer[write] := ascii;
            write := next;
          }
        }
      }
    }

    /** The test of the loop of `keyboard_getchar`. */
    method MustWait() returns (wait: bool)
      requires Valid()
      ensures wait <==> Now().read == Now().write
    {
      wait := read == write;
    }

    /** Its read of the buffer. */
    method Fetch() returns (c: char)
      requires Valid()
      ensures c == Now().buf[Now().read]
    {
      c := buffer[read];
    }

    /** Its update of the read index. */
    method Advance()
      requires Valid()
      modifies this`read
      ensures Valid() && Now() == old(Now()).(read := Succ(old(read)))
    {
      read := (read + 1) % SIZE;
    }

    /** One step of `keyboard_getchar`, as far as it has come. */
    method Continue(phase: Phase) returns (next: Phase)
      requires Valid()
      modifies this`read
      ensures Valid()
      ensures forall accepted, delivered ::
                var t := Step(State(old(Now()), phase, accepted, delivered), Reader);
                t.ring == Now() && t.phase == next
    {
      match phase
      case Testing =>
        var wait := MustWait();
        next := if wait then Testing else Fetching;
      case Fetching =>
        var c := Fetch();
        next := Advancing(c);
      case Advancing(_) =>
        Advance();
        next := Testing;
    }
  }
}
