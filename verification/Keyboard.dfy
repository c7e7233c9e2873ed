/** The keyboard driver (keyboard.cpp): a ring buffer filled by interrupts and emptied by a reader, whose
    steps may come in any order. */
module Keyboard {
  import opened Wrappers
  import opened Bytes

  const BUFFER_SIZE: nat := 256
  const NEWLINE: Byte := 10

  /** Characters of scancodes 0 to 79; the higher ones have none. */
  const KEYS: seq<Byte> := [
    0, 27, 49, 50, 51, 52, 53, 54, 55, 56, 57, 48, 45, 61, 8, 9,
    113, 119, 101, 114, 116, 121, 117, 105, 111, 112, 91, 93, 10, 0, 97, 115,
    100, 102, 103, 104, 106, 107, 108, 59, 39, 96, 0, 92, 122, 120, 99, 118,
    98, 110, 109, 44, 46, 47, 0, 42, 0, 32, 0, 0, 0, 0, 0, 0,
    0, 0, 0, 0, 0, 0, 0, 0, 0, 0, 45, 0, 0, 0, 43, 0]

  function CharOf(scancode: Byte): Byte {
    if scancode < |KEYS| then KEYS[scancode] else 0
  }

  /** `is_caps` upper-cases letters. */
  function Shifted(c: Byte, caps: bool): Byte {
    if caps && 97 <= c <= 122 then c - 97 + 65 else c
  }

  function Xor(a: bool, b: bool): bool {
    a != b
  }

  /** The ring's characters from index `r` up to, but not including, index `w`. */
  function Ring(buf: seq<Byte>, r: nat, w: nat): (s: seq<Byte>)
    requires |buf| == BUFFER_SIZE && r < BUFFER_SIZE && w < BUFFER_SIZE
    ensures |s| == if r <= w then w - r else w + BUFFER_SIZE - r
  {
    if r <= w then buf[r..w] else buf[r..] + buf[..w]
  }

  lemma RingPut(buf: seq<Byte>, r: nat, w: nat, c: Byte)
    requires |buf| == BUFFER_SIZE && r < BUFFER_SIZE && w < BUFFER_SIZE
    requires (w + 1) % BUFFER_SIZE != r
    ensures Ring(buf[w := c], r, (w + 1) % BUFFER_SIZE) == Ring(buf, r, w) + [c]
  {
  }

  lemma RingTake(buf: seq<Byte>, r: nat, w: nat)
    requires |buf| == BUFFER_SIZE && r < BUFFER_SIZE && w < BUFFER_SIZE && r != w
    ensures Ring(buf, r, w) == [buf[r]] + Ring(buf, (r + 1) % BUFFER_SIZE, w)
  {
    hide Ring;
    if r < BUFFER_SIZE - 1 {
      RingTakeInside(buf, r, w);
    } else {
      RingTakeLast(buf, w);
    }
  }

  lemma RingTakeInside(buf: seq<Byte>, r: nat, w: nat)
    requires |buf| == BUFFER_SIZE && r + 1 < BUFFER_SIZE && w < BUFFER_SIZE && r != w
    ensures Ring(buf, r, w) == [buf[r]] + Ring(buf, r + 1, w)
  {
    if r < w {
      assert buf[r..w] == [buf[r]] + buf[r + 1..w];
    } else {
      assert buf[r..] == [buf[r]] + buf[r + 1..];
      assert [buf[r]] + (buf[r + 1..] + buf[..w]) == ([buf[r]] + buf[r + 1..]) + buf[..w];
    }
  }

  lemma RingTakeLast(buf: seq<Byte>, w: nat)
    requires |buf| == BUFFER_SIZE && w < BUFFER_SIZE - 1
    ensures Ring(buf, BUFFER_SIZE - 1, w) == [buf[BUFFER_SIZE - 1]] + Ring(buf, 0, w)
  {
    assert buf[BUFFER_SIZE - 1..] == [buf[BUFFER_SIZE - 1]];
    assert buf[0..w] == buf[..w];
  }

  // ---------- the driver as a queue ----------

  /** Where the reader is inside `read`: outside it, waiting for a character, about to load one it has
      seen, or with one stored in its buffer and the read index still to advance. */
  datatype ReaderAt = Outside | Polling | Seen | Stored(c: Byte)

  datatype Modifiers = Modifiers(leftShift: bool, rightShift: bool, capsLock: bool) {
    /** `is_caps` */
    predicate Caps() {
      Xor(capsLock, leftShift || rightShift)
    }
  }

  /** The modifiers, the characters in the ring, the reader's call, and all characters that were put into
      the ring and stored by the reader so far. */
  datatype State = State(mods: Modifiers, ring: seq<Byte>, at: ReaderAt, count: nat, result: seq<Byte>,
                         accepted: seq<Byte>, delivered: seq<Byte>)

  datatype Event = Interrupt(scancode: Byte) | Step | Begin(n: nat)

  /** Shift keys act while held; the lock toggles on release. */
  function Pressed(m: Modifiers, scancode: Byte): Modifiers {
    match scancode
    case 42 => m.(leftShift := true)
    case 54 => m.(rightShift := true)
    case 170 => m.(leftShift := false)
    case 182 => m.(rightShift := false)
    case 186 => m.(capsLock := !m.capsLock)
    case _ => m
  }

  /** The character a scancode types; none for releases, shift keys and keys without a character. */
  function Typed(m: Modifiers, scancode: Byte): Option<Byte> {
    if scancode >= 128 || scancode == 42 || scancode == 54 || CharOf(scancode) == 0 then None
    else Some(Shifted(CharOf(scancode), m.Caps()))
  }

  /** The ring is full with one place left: its indices would meet otherwise. */
  predicate Room(s: State) {
    |s.ring| < BUFFER_SIZE - 1
  }

  /** An event at any point of the reader. A full ring drops a new character. A call begins only when none
      is under way, and one for no characters ends at once. */
  function After(s: State, e: Event): State {
    match e
    case Interrupt(scancode) =>
      var c, m := Typed(s.mods, scancode), Pressed(s.mods, scancode);
      if c.Some? && Room(s) then s.(mods := m, ring := s.ring + [c.value], accepted := s.accepted + [c.value])
      else s.(mods := m)
    case Begin(n) =>
      if s.at.Outside? then s.(at := if n > 0 then Polling else Outside, count := n, result := []) else s
    case Step =>
      match s.at
      case Outside => s
      case Polling => if s.ring != [] then s.(at := Seen) else s
      case Seen =>
        if s.ring == [] then s
        else s.(at := Stored(s.ring[0]), result := s.result + [s.ring[0]], delivered := s.delivered + [s.ring[0]])
      case Stored(c) =>
        if s.ring == [] then s
        else s.(at := if c == NEWLINE || |s.result| == s.count then Outside else Polling, ring := s.ring[1..])
  }

  function Run(s: State, events: seq<Event>): State
    decreases |events|
  {
    if events == [] then s else Run(After(s, events[0]), events[1..])
  }

  lemma {:induction false} RunAppend(s: State, events: seq<Event>, e: Event)
    ensures Run(s, events + [e]) == After(Run(s, events), e)
    decreases |events|
  {
    hide After;
    if events == [] {
      assert events + [e] == [e];
    } else {
      RunAppend(After(s, events[0]), events[1..], e);
      assert (events + [e])[1..] == events[1..] + [e];
    }
  }

  /** What is delivered, followed by what the ring holds, is what was accepted, in order. While the
      reader has stored a character without advancing, that one is in both. A newline only ever ends a
      call. */
  ghost predicate Sound(s: State) {
    && |s.ring| < BUFFER_SIZE
    && match s.at
       case Outside =>
         && s.accepted == s.delivered + s.ring
         && (s.result != [] ==> NEWLINE !in s.result[..|s.result| - 1]
                                && (s.result[|s.result| - 1] == NEWLINE || |s.result| == s.count))
       case Polling => s.accepted == s.delivered + s.ring && |s.result| < s.count && NEWLINE !in s.result
       case Seen =>
         s.accepted == s.delivered + s.ring && |s.result| < s.count && NEWLINE !in s.result && s.ring != []
       case Stored(c) =>
         && s.ring != [] && s.ring[0] == c
         && s.delivered != [] && s.delivered[|s.delivered| - 1] == c
         && s.accepted == s.delivered[..|s.delivered| - 1] + s.ring
         && 0 < |s.result| <= s.count && s.result[|s.result| - 1] == c && NEWLINE !in s.result[..|s.result| - 1]
  }

  lemma AfterSound(s: State, e: Event)
    requires Sound(s)
    ensures Sound(After(s, e))
  {
    match e {
      case Interrupt(scancode) => InterruptSound(s, scancode);
      case Step => StepSound(s);
      case Begin(n) =>
    }
  }

  lemma InterruptSound(s: State, scancode: Byte)
    requires Sound(s)
    ensures Sound(After(s, Interrupt(scancode)))
  {
    hide Typed, Pressed;
  }

  lemma StepSound(s: State)
    requires Sound(s)
    ensures Sound(After(s, Step))
  {
    if s.at.Stored? {
      assert s.delivered == s.delivered[..|s.delivered| - 1] + [s.ring[0]];
      assert s.ring == [s.ring[0]] + s.ring[1..];
    }
  }

  /** The characters delivered are an initial part of those accepted. */
  lemma DeliveredInOrder(s: State)
    requires Sound(s)
    ensures s.delivered <= s.accepted
  {
    if s.at.Stored? {
      assert s.delivered == s.delivered[..|s.delivered| - 1] + [s.ring[0]];
    }
  }

  /** What a call for up to `n` characters returns: it ends at a newline or with the last character. */
  predicate IsLine(r: seq<Byte>, n: int) {
    && 0 < |r| <= n && NEWLINE !in r[..|r| - 1]
    && (r[|r| - 1] == NEWLINE || |r| == n)
  }

  function StepCount(events: seq<Event>): nat {
    if events == [] then 0 else (if events[0].Step? then 1 else 0) + StepCount(events[1..])
  }

  /** How many events it takes for the reader to make `n` steps. */
  function Until(events: seq<Event>, n: nat): (k: nat)
    requires n <= StepCount(events)
    ensures k <= |events|
  {
    if n == 0 then 0 else 1 + Until(events[1..], if events[0].Step? then n - 1 else n)
  }

  /** The reader is in a call that will return `line`, the first characters of the ring; one already stored
      is still in front. */
  predicate Reading(s: State, line: seq<Byte>) {
    && line <= s.ring && line != []
    && match s.at
       case Outside => false
       case Polling => IsLine(line, s.count - |s.result|)
       case Seen => IsLine(line, s.count - |s.result|)
       case Stored(c) => c == line[0] && IsLine(line, s.count - |s.result| + 1)
  }

  /** The steps the reader still makes, three for each character. */
  function StepsLeft(s: State, line: seq<Byte>): nat
    requires line != []
  {
    3 * |line| - (match s.at case Outside => 0 case Polling => 0 case Seen => 1 case Stored(_) => 2)
  }

  /** What it still stores. */
  function StoresLeft(s: State, line: seq<Byte>): seq<Byte>
    requires line != []
  {
    if s.at.Stored? then line[1..] else line
  }

  /** The call has returned with `more` characters stored since `s`, `taken` of them from the ring, and the
      ring holds the rest and what was accepted meanwhile. */
  predicate Returned(s: State, taken: nat, more: seq<Byte>, r: State) {
    && r.at.Outside? && r.count == s.count && r.result == s.result + more && r.delivered == s.delivered + more
    && s.accepted <= r.accepted && taken <= |s.ring| && r.ring == s.ring[taken..] + r.accepted[|s.accepted|..]
  }

  lemma {:induction false} ReadsOn(s: State, line: seq<Byte>, events: seq<Event>)
    requires Reading(s, line) && StepsLeft(s, line) <= StepCount(events)
    ensures Returned(s, |line|, StoresLeft(s, line), Run(s, events[..Until(events, StepsLeft(s, line))]))
    decreases |events|
  {
    hide Typed, Pressed;
    var e, rest, n := events[0], events[1..], StepsLeft(s, line);
    var u := Until(events, n);
    var s1 := After(s, e);
    assert events[..u][1..] == rest[..u - 1] && events[..u] != [] && events[..u][0] == e;
    if e.Step? && s.at.Stored? && |line| == 1 {
      assert rest[..0] == [];
    } else {
      var line1 := if e.Step? && s.at.Stored? then line[1..] else line;
      ReadsStep(s, line, e);
      ReadsOn(s1, line1, rest);
      ReturnedBefore(s, line, e, Run(s1, rest[..u - 1]));
    }
  }

  lemma ReadsStep(s: State, line: seq<Byte>, e: Event)
    requires Reading(s, line) && !(e.Step? && s.at.Stored? && |line| == 1)
    ensures var line1 := if e.Step? && s.at.Stored? then line[1..] else line;
            && Reading(After(s, e), line1)
            && StepsLeft(After(s, e), line1) == StepsLeft(s, line) - (if e.Step? then 1 else 0)
  {
    hide Typed, Pressed;
  }

  lemma ReturnedBefore(s: State, line: seq<Byte>, e: Event, r: State)
    requires Reading(s, line) && !(e.Step? && s.at.Stored? && |line| == 1)
    requires var s1, line1 := After(s, e), if e.Step? && s.at.Stored? then line[1..] else line;
             Returned(s1, |line1|, StoresLeft(s1, line1), r)
    ensures Returned(s, |line|, StoresLeft(s, line), r)
  {
    hide After, IsLine, Returned;
    match e {
      case Interrupt(scancode) => ReturnedInterrupt(s, line, scancode, r);
      case Step => ReturnedStep(s, line, r);
      case Begin(n) => assert After(s, e) == s by { BeginIgnored(s, n); }
    }
  }

  lemma ReturnedInterrupt(s: State, line: seq<Byte>, scancode: Byte, r: State)
    requires Reading(s, line)
    requires var s1 := After(s, Interrupt(scancode)); Returned(s1, |line|, StoresLeft(s1, line), r)
    ensures Returned(s, |line|, StoresLeft(s, line), r)
  {
    hide Typed, Pressed, IsLine;
    var s1 := After(s, Interrupt(scancode));
    if s1.accepted != s.accepted {
      var k := |s.accepted|;
      assert s1.accepted[k] == r.accepted[k] && s1.ring == s.ring + [r.accepted[k]];
      RestAppend(s.ring, |line|, r.accepted, k);
    }
  }

  lemma ReturnedStep(s: State, line: seq<Byte>, r: State)
    requires Reading(s, line) && !(s.at.Stored? && |line| == 1)
    requires var s1, line1 := After(s, Step), if s.at.Stored? then line[1..] else line;
             Returned(s1, |line1|, StoresLeft(s1, line1), r)
    ensures Returned(s, |line|, StoresLeft(s, line), r)
  {
    hide IsLine, After, Returned;
    StepsOn(s, line);
    match s.at {
      case Polling => ReturnedPoll(s, |line|, line, r);
      case Seen => ReturnedStore(s, After(s, Step), line, r);
      case Stored(c) => ReturnedAdvance(s, After(s, Step), line, r);
    }
  }

  lemma StepsOn(s: State, line: seq<Byte>)
    requires Reading(s, line)
    ensures var r := After(s, Step);
            match s.at
            case Polling => r == s.(at := Seen)
            case Seen =>
              r == s.(at := Stored(line[0]), result := s.result + [line[0]], delivered := s.delivered + [line[0]])
            case Stored(c) => r == s.(at := r.at, ring := s.ring[1..]) && (r.at.Outside? || r.at.Polling?)
            case Outside => false
  {
    hide IsLine;
  }

  lemma ReturnedPoll(s: State, taken: nat, more: seq<Byte>, r: State)
    requires Returned(s.(at := Seen), taken, more, r)
    ensures Returned(s, taken, more, r)
  {
  }

  lemma ReturnedStore(s: State, s1: State, line: seq<Byte>, r: State)
    requires line != []
    requires s1 == s.(at := Stored(line[0]), result := s.result + [line[0]], delivered := s.delivered + [line[0]])
    requires Returned(s1, |line|, line[1..], r)
    ensures Returned(s, |line|, line, r)
  {
    assert line == [line[0]] + line[1..];
    assert s.result + line == s.result + [line[0]] + line[1..];
    assert s.delivered + line == s.delivered + [line[0]] + line[1..];
  }

  lemma ReturnedAdvance(s: State, s1: State, line: seq<Byte>, r: State)
    requires 1 < |line| <= |s.ring| && s1 == s.(at := s1.at, ring := s.ring[1..])
    requires Returned(s1, |line| - 1, line[1..], r)
    ensures Returned(s, |line|, line[1..], r)
  {
    assert s.ring[1..][|line| - 1..] == s.ring[|line|..];
  }

  lemma RestAppend(ring: seq<Byte>, taken: nat, accepted: seq<Byte>, k: nat)
    requires taken <= |ring| && k < |accepted|
    ensures (ring + [accepted[k]])[taken..] + accepted[k + 1..] == ring[taken..] + accepted[k..]
  {
    assert accepted[k..] == [accepted[k]] + accepted[k + 1..];
  }

  /** A call that finds such a line in the ring returns it, after three steps for each character, whatever
      interrupts come in between. */
  lemma ReadsLine(s: State, line: seq<Byte>, events: seq<Event>)
    requires s.at.Polling? && line <= s.ring && IsLine(line, s.count - |s.result|) && 3 * |line| <= StepCount(events)
    ensures Returned(s, |line|, line, Run(s, events[..Until(events, 3 * |line|)]))
  {
    hide Run, Until, StepCount, Returned;
    ReadsOn(s, line, events);
  }

  /** What the keys type, whatever becomes of it. */
  function Keystrokes(m: Modifiers, events: seq<Event>): seq<Byte>
    decreases |events|
  {
    if events == [] then []
    else if events[0].Interrupt? then
      var c, rest := Typed(m, events[0].scancode), Keystrokes(Pressed(m, events[0].scancode), events[1..]);
      if c.Some? then [c.value] + rest else rest
    else Keystrokes(m, events[1..])
  }

  /** No character is typed while the ring is full. */
  predicate AlwaysRoom(s: State, events: seq<Event>)
    decreases |events|
  {
    events == [] || (&& (events[0].Interrupt? && Typed(s.mods, events[0].scancode).Some? ==>
                           |s.ring| < BUFFER_SIZE - 1)
                     && AlwaysRoom(After(s, events[0]), events[1..]))
  }

  /** Over any run exactly the keystrokes are accepted if none comes while the ring is full, and fewer
      otherwise; what was accepted before stays in front. */
  lemma {:induction false} NothingDropped(s: State, events: seq<Event>)
    ensures s.accepted <= Run(s, events).accepted
    ensures |Run(s, events).accepted| <= |s.accepted| + |Keystrokes(s.mods, events)|
    ensures AlwaysRoom(s, events) <==> Run(s, events).accepted == s.accepted + Keystrokes(s.mods, events)
    decreases |events|
  {
    hide Typed, Pressed;
    if events != [] {
      var e := events[0];
      NothingDropped(After(s, e), events[1..]);
      if e.Interrupt? && Typed(s.mods, e.scancode).Some? {
        var c := Typed(s.mods, e.scancode).value;
        assert Keystrokes(s.mods, events) == [c] + Keystrokes(Pressed(s.mods, e.scancode), events[1..]);
        assert s.accepted + Keystrokes(s.mods, events)
            == (s.accepted + [c]) + Keystrokes(Pressed(s.mods, e.scancode), events[1..]);
      }
    }
  }

  // ---------- capitals ----------

  /** The key was pressed and has not been released since. */
  ghost predicate Down(events: seq<Event>, key: Byte)
    requires key < 128
  {
    exists i :: 0 <= i < |events| && events[i] == Interrupt(key)
                && forall j :: i < j < |events| ==> events[j] != Interrupt(key + 128)
  }

  /** How often the scancode came. */
  function Count(events: seq<Event>, scancode: Byte): nat {
    if events == [] then 0
    else Count(events[..|events| - 1], scancode) + (if events[|events| - 1] == Interrupt(scancode) then 1 else 0)
  }

  lemma DownStep(events: seq<Event>, e: Event, key: Byte)
    requires key < 128
    ensures Down(events + [e], key) <==> e == Interrupt(key) || (Down(events, key) && e != Interrupt(key + 128))
  {
    var more, n := events + [e], |events|;
    assert more[n] == e && forall i :: 0 <= i < n ==> more[i] == events[i];
    if i :| 0 <= i < n && events[i] == Interrupt(key) && forall j :: i < j < n ==> events[j] != Interrupt(key + 128) {
      assert more[i] == Interrupt(key);
    }
    if i :| 0 <= i <= n && more[i] == Interrupt(key) && forall j :: i < j <= n ==> more[j] != Interrupt(key + 128) {
      assert i < n ==> events[i] == Interrupt(key) && more[n] != Interrupt(key + 128);
    }
  }

  /** What the keys say about the modifiers. */
  ghost function KeysOf(events: seq<Event>): Modifiers {
    Modifiers(Down(events, 42), Down(events, 54), Count(events, 186) % 2 == 1)
  }

  lemma KeysStep(events: seq<Event>, e: Event)
    ensures KeysOf(events + [e]) == if e.Interrupt? then Pressed(KeysOf(events), e.scancode) else KeysOf(events)
  {
    hide Down;
    assert (events + [e])[..|events|] == events;
    DownStep(events, e, 42);
    DownStep(events, e, 54);
  }

  lemma AfterModifiers(s: State, e: Event)
    ensures After(s, e).mods == if e.Interrupt? then Pressed(s.mods, e.scancode) else s.mods
  {
    hide Typed, Pressed;
  }

  /** What the modifiers are after a run from the start of the driver. */
  lemma {:induction false} ModifiersOfRun(s: State, events: seq<Event>)
    requires s.mods == Modifiers(false, false, false)
    ensures Run(s, events).mods == KeysOf(events)
    decreases |events|
  {
    hide Typed, Down, Run, After, Pressed, KeysOf;
    if events == [] {
      assert Run(s, events) == s by { RunNothing(s); }
      NoKeys();
    } else {
      var before, e := events[..|events| - 1], events[|events| - 1];
      assert events == before + [e];
      ModifiersOfRun(s, before);
      RunAppend(s, before, e);
      KeysStep(before, e);
      AfterModifiers(Run(s, before), e);
    }
  }

  lemma NoKeys()
    ensures KeysOf([]) == Modifiers(false, false, false)
  {
  }

  lemma RunNothing(s: State)
    ensures Run(s, []) == s
  {
  }

  /** What a key types after a run: its character, a letter as a capital exactly if one of these holds and not
      the other, the lock was released an odd number of times, or a shift key is down. Releases and keys without
      a character type nothing. */
  lemma KeyTypes(s: State, events: seq<Event>, scancode: Byte)
    requires s.mods == Modifiers(false, false, false)
    ensures var r, c := Run(s, events), CharOf(scancode);
            var capital := (Count(events, 186) % 2 == 1) != (Down(events, 42) || Down(events, 54));
            && (Typed(r.mods, scancode).Some? <==> scancode < 128 && c != 0)
            && (Typed(r.mods, scancode).Some? ==>
                  var t := if capital && 97 <= c <= 122 then c - 32 else c;
                  && Typed(r.mods, scancode).value == t
                  && After(r, Interrupt(scancode)).ring == if |r.ring| < BUFFER_SIZE - 1 then r.ring + [t] else r.ring)
  {
    hide Down, Count, Run;
    ModifiersOfRun(s, events);
    assert CharOf(42) == 0 && CharOf(54) == 0;
  }

  // ---------- the driver ----------

  class Keyboard {
    const buffer: array<Byte>
    var writeIndex: nat
    var readIndex: nat
    var leftShift: bool
    var rightShift: bool
    var capsLock: bool

    // the reader's call
    var at: ReaderAt
    var count: nat
    var result: seq<Byte>

    ghost var accepted: seq<Byte>   // characters put into the ring
    ghost var delivered: seq<Byte>  // characters stored by the reader, over all calls

    ghost predicate Indices()
      reads this
    {
      buffer.Length == BUFFER_SIZE && readIndex < BUFFER_SIZE && writeIndex < BUFFER_SIZE
    }

    ghost function View(): State
      requires Indices()
      reads this, buffer
    {
      State(Modifiers(leftShift, rightShift, capsLock), Ring(buffer[..], readIndex, writeIndex), at, count, result,
            accepted, delivered)
    }

    ghost predicate Valid()
      reads this, buffer
    {
      Indices() && Sound(View())
    }

    constructor ()
      ensures Valid() && View() == State(Modifiers(false, false, false), [], Outside, 0, [], [], [])
    {
      buffer := new Byte[BUFFER_SIZE](_ => 0);
      writeIndex, readIndex := 0, 0;
      leftShift, rightShift, capsLock := false, false, false;
      at, count, result := Outside, 0, [];
      accepted, delivered := [], [];
    }

    /** `irq`: an interrupt at any point of the reader. */
    method Irq(scancode: Byte)
      requires Valid()
      modifies this`writeIndex, this`leftShift, this`rightShift, this`capsLock, this`accepted, buffer
      ensures Valid() && View() == After(old(View()), Interrupt(scancode))
    {
      hide Ring, Sound;
      AfterSound(View(), Interrupt(scancode));
      if scancode >= 128 {
        match scancode - 128 {
          case 42 => leftShift := false;
          case 54 => rightShift := false;
          case 58 => capsLock := !capsLock;
          case _ =>
        }
      } else {
        match scancode {
          case 42 => leftShift := true;
          case 54 => rightShift := true;
          case _ =>
            var c := CharOf(scancode);
            if c != 0 {
              if Xor(capsLock, leftShift || rightShift) && c >= 97 && c <= 122 {
                c := c - 97 + 65;
              }
              if (writeIndex + 1) % BUFFER_SIZE != readIndex {
                Put(c);
              }
            }
        }
      }
    }

    /** The storing branch of `irq`. */
    method Put(c: Byte)
      requires Indices() && (writeIndex + 1) % BUFFER_SIZE != readIndex
      modifies this`writeIndex, this`accepted, buffer
      ensures Indices() && Room(old(View()))
      ensures View() == old(View()).(ring := old(View()).ring + [c], accepted := old(accepted) + [c])
    {
      hide Ring;
      RingPut(buffer[..], readIndex, writeIndex, c);
      ghost var was := buffer[..];
      buffer[writeIndex] := c;
      assert buffer[..] == was[writeIndex := c];
      writeIndex := (writeIndex + 1) % BUFFER_SIZE;
      accepted := accepted + [c];
    }

    /** A call of `read` for up to `n` characters begins. */
    method BeginRead(n: nat)
      requires Valid() && at == Outside
      modifies this`at, this`count, this`result
      ensures Valid() && View() == After(old(View()), Begin(n))
    {
      hide Ring;
      AfterSound(View(), Begin(n));
      count, result := n, [];
      at := if n > 0 then Polling else Outside;
    }

    /** One step of `read`: a look at the indices, the load and store of a character, or the advance of the
        read index. */
    method ReaderStep()
      requires Valid()
      modifies this`at, this`result, this`readIndex, this`delivered
      ensures Valid() && View() == After(old(View()), Step)
    {
      hide Ring;
      AfterSound(View(), Step);
      match at {
        case Outside =>
        case Polling =>
          if readIndex != writeIndex {
            at := Seen;
          }
        case Seen =>
          RingTake(buffer[..], readIndex, writeIndex);
          var c := buffer[readIndex];
          result := result + [c];
          delivered := delivered + [c];
          at := Stored(c);
        case Stored(c) =>
          RingTake(buffer[..], readIndex, writeIndex);
          readIndex := (readIndex + 1) % BUFFER_SIZE;
          at := if c == NEWLINE || |result| == count then Outside else Polling;
      }
    }
  }

  /** Every interleaving of interrupts with the steps of readers acts as on a queue of 255 characters; the
      characters delivered are an initial part of those accepted, in order. */
  method Interleave(k: Keyboard, events: seq<Event>)
    requires k.Valid()
    modifies k, k.buffer
    ensures k.Valid() && k.View() == Run(old(k.View()), events)
    ensures k.delivered <= k.accepted
    ensures k.at.Outside? ==> k.accepted == k.delivered + k.View().ring
  {
    hide Ring, After;
    ghost var s := k.View();
    for i := 0 to |events|
      invariant k.Valid() && k.View() == Run(s, events[..i])
    {
      assert events[..i + 1] == events[..i] + [events[i]];
      RunAppend(s, events[..i], events[i]);
      match events[i] {
        case Interrupt(scancode) => k.Irq(scancode);
        case Step => k.ReaderStep();
        case Begin(n) =>
          if k.at == Outside {
            k.BeginRead(n);
          } else {
            BeginIgnored(k.View(), n);
          }
      }
    }
    assert events[..|events|] == events;
    DeliveredInOrder(k.View());
  }

  lemma BeginIgnored(s: State, n: nat)
    requires !s.at.Outside?
    ensures After(s, Begin(n)) == s
  {
  }
}
