/**
 The keyboard buffer of kernel/driver/keyboard.c: the interrupt handler appends key codes to one page,
 getc takes them out again. The handler may run between any two steps of getc.
 */
module Keyboard {
  import opened Words

  /** From key codes to characters; 0 where a key has no character. */
  type Keymap = k: Byte -> Byte | k(0) == 0 witness (b: Byte) => b

  /** The steps of getc: wait for a key, read the cell at the head, step over it, test the key. */
  datatype Pc = Wait | Read | Bump | Test | Fault

  datatype State = State(cells: seq<Byte>, head: nat, tail: nat, pc: Pc, key: Byte, returned: seq<Byte>)

  datatype Event = Interrupt(code: Byte) | ReaderStep

  function Zeros(n: nat): (z: seq<Byte>)
    ensures |z| == n && forall i: nat | i < n :: z[i] == 0
  {
    seq(n, _ => 0)
  }

  /** After kbd_init. */
  function Initial(): State {
    State(Zeros(PAGE_SIZE), 0, 0, Wait, 0, [])
  }

  /** kbd_isr, given the key code: codes other than 0 are stored while there is room. */
  function OnInterrupt(s: State, code: Byte): State {
    if code != 0 && s.tail < PAGE_SIZE && |s.cells| == PAGE_SIZE
    then s.(cells := s.cells[s.tail := code], tail := s.tail + 1)
    else s
  }

  /** One step of getc; calls follow one another. Reading behind the page is a fault. */
  function OnReader(m: Keymap, s: State): State {
    match s.pc
    case Wait => if s.head == s.tail then s else s.(pc := Read)
    case Read => if s.head < |s.cells| then s.(key := s.cells[s.head], pc := Bump) else s.(pc := Fault)
    case Bump => s.(head := if s.key != 0 then s.head + 1 else s.head, pc := Test)
    case Test => if m(s.key) == 0 then s.(pc := Read) else s.(returned := s.returned + [m(s.key)], pc := Wait)
    case Fault => s
  }

  function Next(m: Keymap, s: State, e: Event): State {
    if e.Interrupt? then OnInterrupt(s, e.code) else OnReader(m, s)
  }

  function Run(m: Keymap, s: State, events: seq<Event>): State {
    if events == [] then s else Next(m, Run(m, s, events[..|events| - 1]), events[|events| - 1])
  }

  // ----- specification -----

  /** The key codes other than 0 that the keyboard has sent. */
  function Sent(events: seq<Event>): seq<Byte> {
    if events == [] then []
    else
      var e := events[|events| - 1];
      Sent(events[..|events| - 1]) + (if e.Interrupt? && e.code != 0 then [e.code] else [])
  }

  /** The first page full of them. */
  function Accepted(events: seq<Event>): seq<Byte> {
    if |Sent(events)| <= PAGE_SIZE then Sent(events) else Sent(events)[..PAGE_SIZE]
  }

  /** The characters that a sequence of keys stands for. */
  function Characters(m: Keymap, keys: seq<Byte>): seq<Byte> {
    if keys == [] then []
    else
      var k := keys[|keys| - 1];
      Characters(m, keys[..|keys| - 1]) + (if m(k) != 0 then [m(k)] else [])
  }

  /** The keys the reader is done with: all it has stepped over, but not one still to be tested. */
  function Consumed(s: State): nat {
    if s.pc == Test && s.key != 0 && s.head > 0 then s.head - 1 else s.head
  }

  ghost predicate BufferOk(s: State, accepted: seq<Byte>) {
    && |s.cells| == PAGE_SIZE
    && s.head <= s.tail <= PAGE_SIZE
    && s.cells == accepted + Zeros(PAGE_SIZE - s.tail)
    && s.tail == |accepted|
    && (forall i: nat | i < |accepted| :: accepted[i] != 0)
  }

  ghost predicate ReaderOk(m: Keymap, s: State) {
    && |s.cells| == PAGE_SIZE && s.head <= s.tail <= PAGE_SIZE
    && (s.pc == Bump && s.key != 0 ==> s.head < s.tail && s.key == s.cells[s.head])
    && (s.pc == Test && s.key != 0 ==> s.head > 0 && s.key == s.cells[s.head - 1])
    && (s.pc == Fault ==> s.head == PAGE_SIZE)
    && s.returned == Characters(m, s.cells[..Consumed(s)])
  }

  lemma CharactersSnoc(m: Keymap, keys: seq<Byte>, k: Byte)
    ensures Characters(m, keys + [k]) == Characters(m, keys) + (if m(k) != 0 then [m(k)] else [])
  {
    assert (keys + [k])[..|keys|] == keys;
  }

  lemma InterruptKeeps(m: Keymap, s: State, code: Byte, accepted: seq<Byte>)
    requires BufferOk(s, accepted) && ReaderOk(m, s)
    ensures var t := OnInterrupt(s, code);
            && ReaderOk(m, t)
            && BufferOk(t, if code != 0 && s.tail < PAGE_SIZE then accepted + [code] else accepted)
  {
    if code != 0 && s.tail < PAGE_SIZE {
      var t := OnInterrupt(s, code);
      assert t.cells == (accepted + [code]) + Zeros(PAGE_SIZE - t.tail);
      assert t.cells[..Consumed(s)] == s.cells[..Consumed(s)];
    }
  }

  lemma ReaderKeeps(m: Keymap, s: State, accepted: seq<Byte>)
    requires BufferOk(s, accepted) && ReaderOk(m, s)
    ensures BufferOk(OnReader(m, s), accepted) && ReaderOk(m, OnReader(m, s))
  {
    match s.pc
    case Wait =>
    case Read =>
      if s.head < PAGE_SIZE {
        ReadKeeps(s, accepted);
      }
    case Bump => BumpKeeps(m, s);
    case Test => TestKeeps(m, s);
    case Fault =>
  }

  /** A cell that is not zero lies below the tail. */
  lemma ReadKeeps(s: State, accepted: seq<Byte>)
    requires BufferOk(s, accepted) && s.head < PAGE_SIZE
    ensures s.cells[s.head] != 0 ==> s.head < s.tail
  {
    if s.head >= s.tail {
      assert s.cells[s.head] == Zeros(PAGE_SIZE - s.tail)[s.head - s.tail];
    }
  }

  lemma BumpKeeps(m: Keymap, s: State)
    requires ReaderOk(m, s) && s.pc == Bump
    ensures ReaderOk(m, OnReader(m, s))
  {
  }

  lemma TestKeeps(m: Keymap, s: State)
    requires ReaderOk(m, s) && s.pc == Test
    ensures ReaderOk(m, OnReader(m, s))
  {
    if s.key != 0 {
      CharactersSnoc(m, s.cells[..s.head - 1], s.key);
      assert s.cells[..s.head] == s.cells[..s.head - 1] + [s.key];
    }
  }

  lemma AcceptedSnoc(before: seq<Event>, e: Event)
    ensures Accepted(before + [e]) ==
            if e.Interrupt? && e.code != 0 && |Accepted(before)| < PAGE_SIZE
            then Accepted(before) + [e.code] else Accepted(before)
  {
    assert (before + [e])[..|before|] == before;
    if e.Interrupt? && e.code != 0 {
      assert Sent(before + [e]) == Sent(before) + [e.code];
    } else {
      assert Sent(before + [e]) == Sent(before);
    }
  }

  /**
   Under every interleaving the buffer holds the first page full of the keys sent, in order, with
   zeros behind them, and the characters returned are those of the keys consumed: none is lost,
   repeated or reordered.
   */
  lemma {:induction false} Fifo(m: Keymap, events: seq<Event>)
    ensures var s := Run(m, Initial(), events);
            BufferOk(s, Accepted(events)) && ReaderOk(m, s)
  {
    if events == [] {
      assert Initial().cells == [] + Zeros(PAGE_SIZE);
    } else {
      var before, e := events[..|events| - 1], events[|events| - 1];
      Fifo(m, before);
      AcceptedSnoc(before, e);
      assert events == before + [e];
      var s := Run(m, Initial(), before);
      if e.Interrupt? {
        InterruptKeeps(m, s, e.code, Accepted(before));
      } else {
        ReaderKeeps(m, s, Accepted(before));
      }
    }
  }

  // ----- reading on behind the page -----

  /**
   At the end of the page the reader is in the inner loop of getc exactly if the last key has no
   character; if it has one, getc returns and then waits for ever.
   */
  ghost predicate EdgeOk(m: Keymap, s: State) {
    && |s.cells| == PAGE_SIZE
    && (s.pc == Bump ==> s.head < PAGE_SIZE)
    && (s.pc == Test && s.head == PAGE_SIZE ==> s.key != 0)
    && (s.pc == Wait && s.head == PAGE_SIZE ==> m(s.cells[PAGE_SIZE - 1]) != 0)
    && (s.head == PAGE_SIZE && (s.pc == Read || s.pc == Fault) ==> m(s.cells[PAGE_SIZE - 1]) == 0)
  }

  lemma EdgeKept(m: Keymap, s: State, accepted: seq<Byte>, e: Event)
    requires BufferOk(s, accepted) && ReaderOk(m, s) && EdgeOk(m, s)
    ensures EdgeOk(m, Next(m, s, e))
  {
  }

  lemma {:induction false} Edge(m: Keymap, events: seq<Event>)
    ensures EdgeOk(m, Run(m, Initial(), events))
  {
    if events != [] {
      var before := events[..|events| - 1];
      Fifo(m, before);
      Edge(m, before);
      EdgeKept(m, Run(m, Initial(), before), Accepted(before), events[|events| - 1]);
    }
  }

  /** `n` steps of the reader with no interrupt in between. */
  function Reading(n: nat): (r: seq<Event>)
    ensures |r| == n && forall i: nat | i < n :: r[i] == ReaderStep
  {
    seq(n, _ => ReaderStep)
  }

  function Steps(m: Keymap, s: State, n: nat): State
    decreases n
  {
    if n == 0 then s else Steps(m, OnReader(m, s), n - 1)
  }

  lemma {:induction false} StepsSnoc(m: Keymap, s: State, n: nat)
    ensures Steps(m, s, n + 1) == OnReader(m, Steps(m, s, n))
    decreases n
  {
    if n > 0 {
      StepsSnoc(m, OnReader(m, s), n - 1);
    }
  }

  lemma {:induction false} RunReading(m: Keymap, events: seq<Event>, n: nat)
    ensures Run(m, Initial(), events + Reading(n)) == Steps(m, Run(m, Initial(), events), n)
    ensures Sent(events + Reading(n)) == Sent(events)
  {
    if n == 0 {
      assert events + Reading(0) == events;
    } else {
      var all := events + Reading(n);
      assert all[..|all| - 1] == events + Reading(n - 1);
      RunReading(m, events, n - 1);
      StepsSnoc(m, Run(m, Initial(), events), n - 1);
    }
  }

  /** How many steps the reader of a full buffer is from the end of the page. */
  function Distance(s: State): int {
    4 * (PAGE_SIZE - s.head) +
    match s.pc
    case Wait => 1
    case Read => 0
    case Bump => if s.key == 0 then 3 else -1
    case Test => 2
    case Fault => 0
  }

  lemma {:induction false} RunsOffThePage(m: Keymap, s: State, keys: seq<Byte>, n: nat)
    requires BufferOk(s, keys) && ReaderOk(m, s) && EdgeOk(m, s)
    requires s.tail == PAGE_SIZE && m(keys[PAGE_SIZE - 1]) == 0 && Distance(s) < n
    ensures Steps(m, s, n).pc == Fault
    decreases n
  {
    assert s.cells == keys + Zeros(0) && |keys| == PAGE_SIZE;
    if n > 0 {
      ReaderKeeps(m, s, keys);
      EdgeKept(m, s, keys, ReaderStep);
      if s.pc == Fault {
        StaysFaulted(m, s, n);
      } else if s.pc == Read && s.head == PAGE_SIZE {
        StaysFaulted(m, OnReader(m, s), n - 1);
      } else {
        RunsOffThePage(m, OnReader(m, s), keys, n - 1);
      }
    }
  }

  lemma {:induction false} StaysFaulted(m: Keymap, s: State, n: nat)
    requires s.pc == Fault
    ensures Steps(m, s, n) == s
  {
    if n > 0 {
      StaysFaulted(m, s, n - 1);
    }
  }

  /** The keys that fill the page are all there and the last of them has no character. */
  predicate Exhausts(m: Keymap, sent: seq<Byte>) {
    |sent| >= PAGE_SIZE && m(sent[PAGE_SIZE - 1]) == 0
  }

  /**
   If the reader is left running it leaves the page exactly if 4096 keys have been sent and the last of
   those has no character; and whenever it has left it, that is so, and the characters of all of them
   have been returned.
   */
  lemma FaultsOnlyWhenExhausted(m: Keymap, events: seq<Event>)
    ensures Run(m, Initial(), events + Reading(4 * PAGE_SIZE + 4)).pc == Fault <==> Exhausts(m, Sent(events))
    ensures var s := Run(m, Initial(), events);
            s.pc == Fault ==>
              Exhausts(m, Sent(events)) && s.returned == Characters(m, Sent(events)[..PAGE_SIZE])
  {
    FaultMeansExhausted(m, events);
    var n := 4 * PAGE_SIZE + 4;
    RunReading(m, events, n);
    FaultMeansExhausted(m, events + Reading(n));
    if Exhausts(m, Sent(events)) {
      Fifo(m, events);
      Edge(m, events);
      RunsOffThePage(m, Run(m, Initial(), events), Accepted(events), n);
    }
  }

  lemma FaultMeansExhausted(m: Keymap, events: seq<Event>)
    ensures var s := Run(m, Initial(), events);
            s.pc == Fault ==>
              Exhausts(m, Sent(events)) && s.returned == Characters(m, Sent(events)[..PAGE_SIZE])
  {
    Fifo(m, events);
    Edge(m, events);
    var s := Run(m, Initial(), events);
    if s.pc == Fault {
      assert s.cells[..PAGE_SIZE] == s.cells == Accepted(events) + Zeros(0);
      assert Accepted(events) + [] == Accepted(events);
    }
  }

  // ----- progress -----

  /** All keys have been read and tested, and the reader is waiting for more, or has left the page. */
  ghost predicate Settled(s: State) {
    s.head == s.tail && !(s.pc == Test && s.key != 0) && !(s.pc == Bump && s.key != 0)
  }

  /** How many steps the reader is from there. */
  function Ahead(s: State): int {
    4 * (s.tail - s.head) +
    match s.pc
    case Wait => 1
    case Read => 0
    case Bump => if s.key == 0 then 3 else -1
    case Test => 2
    case Fault => 0
  }

  lemma StaysSettled(m: Keymap, s: State, keys: seq<Byte>)
    requires BufferOk(s, keys) && ReaderOk(m, s) && Settled(s)
    ensures Settled(OnReader(m, s))
  {
    if s.pc == Read && s.head < PAGE_SIZE {
      ReadKeeps(s, keys);
    }
  }

  lemma Approaches(m: Keymap, s: State, keys: seq<Byte>)
    requires BufferOk(s, keys) && ReaderOk(m, s) && !Settled(s)
    ensures Settled(OnReader(m, s)) || Ahead(OnReader(m, s)) < Ahead(s)
  {
    if s.pc == Read {
      assert s.cells[s.head] == keys[s.head];
    }
  }

  lemma {:induction false} Settles(m: Keymap, s: State, keys: seq<Byte>, n: nat)
    requires BufferOk(s, keys) && ReaderOk(m, s) && (Settled(s) || Ahead(s) < n)
    ensures var t := Steps(m, s, n); BufferOk(t, keys) && ReaderOk(m, t) && Settled(t)
    decreases n
  {
    if n > 0 {
      ReaderKeeps(m, s, keys);
      if Settled(s) {
        StaysSettled(m, s, keys);
      } else {
        Approaches(m, s, keys);
      }
      Settles(m, OnReader(m, s), keys, n - 1);
    }
  }

  lemma SettledHasReturned(m: Keymap, s: State, keys: seq<Byte>)
    requires BufferOk(s, keys) && ReaderOk(m, s) && Settled(s)
    ensures s.returned == Characters(m, keys)
  {
    assert s.cells[..Consumed(s)] == keys;
  }

  /**
   Whatever has happened before, a reader left running for 16388 steps has returned every character of every
   key that was accepted.
   */
  lemma EverythingReturned(m: Keymap, events: seq<Event>, n: nat)
    requires n >= 16388
    ensures Run(m, Initial(), events + Reading(n)).returned == Characters(m, Accepted(events))
  {
    Fifo(m, events);
    RunReading(m, events, n);
    var s := Run(m, Initial(), events);
    Settles(m, s, Accepted(events), n);
    SettledHasReturned(m, Steps(m, s, n), Accepted(events));
  }

  // ----- a run behind the page -----

  function Typed(k: Byte, n: nat): seq<Event> {
    if n == 0 then [] else Typed(k, n - 1) + [Interrupt(k)]
  }

  lemma {:induction false} SentTyped(k: Byte, n: nat)
    requires k != 0
    ensures |Sent(Typed(k, n))| == n && forall i: nat | i < n :: Sent(Typed(k, n))[i] == k
  {
    if n > 0 {
      SentTyped(k, n - 1);
      assert Typed(k, n)[..|Typed(k, n)| - 1] == Typed(k, n - 1);
    }
  }

  /** Such a run: a key without a character is typed 4096 times, and then somebody calls getc. */
  lemma ExhaustingRun(m: Keymap, k: Byte)
    requires k != 0 && m(k) == 0
    ensures Run(m, Initial(), Typed(k, PAGE_SIZE) + Reading(4 * PAGE_SIZE + 4)).pc == Fault
  {
    SentTyped(k, PAGE_SIZE);
    FaultsOnlyWhenExhausted(m, Typed(k, PAGE_SIZE));
  }

  // ----- the driver's variables -----

  class Driver {
    const buffer: array<Byte>
    var head: nat
    var tail: nat
    /** The reader in progress: where it is, the key it holds, and what it has returned so far. */
    var pc: Pc
    var key: Byte
    var returned: seq<Byte>

    ghost predicate Valid()
      reads this
    {
      buffer.Length == PAGE_SIZE && head <= tail <= PAGE_SIZE
    }

    ghost function Value(): State
      reads this, buffer
    {
      State(buffer[..], head, tail, pc, key, returned)
    }

    constructor ()
      ensures Valid() && Value() == Initial() && fresh(buffer)
    {
      buffer := new Byte[PAGE_SIZE](_ => 0);
      head, tail, pc, key, returned := 0, 0, Wait, 0, [];
      new;
      assert buffer[..] == Zeros(PAGE_SIZE);
    }

    method Isr(keycode: Byte)
      requires Valid()
      modifies this`tail, buffer
      ensures Valid() && Value() == OnInterrupt(old(Value()), keycode)
    {
      if keycode != 0 {
        if tail < PAGE_SIZE {
          buffer[tail] := keycode;
          tail := tail + 1;
        }
      }
    }

    /** One step of getc. */
    method Step(m: Keymap)
      requires Valid() && (pc == Bump && key != 0 ==> head < tail)
      modifies this`head, this`pc, this`key, this`returned
      ensures Valid() && Value() == OnReader(m, old(Value()))
    {
      match pc
      case Wait =>
        if head != tail {
          pc := Read;
        }
      case Read =>
        if head < buffer.Length {
          key := buffer[head];
          pc := Bump;
        } else {
          pc := Fault;
        }
      case Bump =>
        if key != 0 {
          head := head + 1;
        }
        pc := Test;
      case Test =>
        if m(key) == 0 {
          pc := Read;
        } else {
          returned := returned + [m(key)];
          pc := Wait;
        }
      case Fault =>
    }
  }
}
