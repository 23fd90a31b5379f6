/** The key driver: an interrupt and one reader share the key states and the event flag. */
module Keys {
  import opened Kernel

  const KEYS: nat := 6

  // Where the reader stands: outside, past the wait, or copying bytes next .. end to the user.
  datatype Reader = Outside | Awake(count: nat) | Copying(next: nat, end: nat)

  // `got` is what the user knows: for every key the value delivered last.
  datatype State = State(keys: seq<char>, evPress: bool, reader: Reader, got: seq<char>)

  predicate Shaped(s: State) {
    && |s.keys| == KEYS && |s.got| == KEYS
    && (s.reader.Copying? ==> s.reader.next <= s.reader.end <= KEYS)
  }

  // The atomic steps.  An interrupt may come between any two steps of the reader, and between
  // any two bytes of its copy.
  datatype Event =
    | Interrupt(number: nat, high: bool)                        // key's pin level
    | Enter(count: nat, nonblock: bool, signalled: bool)        // test ev_press, perhaps wait
    | Clear                                                     // ev_press = 0
    | CopyByte
    | Fault                                                     // copy_to_user gives up
    | Return

  function DownChar(down: bool): char {
    if down then '1' else '0'
  }

  function Bit(c: char): nat {
    c as int % 2
  }

  // Does the reader get past the wait?  A signal ends the wait too, and its result is ignored.
  predicate PastWait(evPress: bool, nonblock: bool, signalled: bool) {
    evPress || (!nonblock && signalled)
  }

  function Step(s: State, e: Event): (s': State)
    requires Shaped(s)
    ensures Shaped(s')
  {
    match e
    case Interrupt(number, high) =>
      if number < KEYS && (if high then 0 else 1) != Bit(s.keys[number])
      then s.(keys := s.keys[number := DownChar(!high)], evPress := true)
      else s
    case Enter(count, nonblock, signalled) =>
      if s.reader.Outside? && PastWait(s.evPress, nonblock, signalled) then s.(reader := Awake(count)) else s
    case Clear =>
      if s.reader.Awake? then s.(evPress := false, reader := Copying(0, Min(KEYS, s.reader.count))) else s
    case CopyByte =>
      if s.reader.Copying? && s.reader.next < s.reader.end
      then s.(got := s.got[s.reader.next := s.keys[s.reader.next]], reader := Copying(s.reader.next + 1, s.reader.end))
      else s
    case Fault =>
      if s.reader.Copying? then s.(reader := Outside) else s
    case Return =>
      if s.reader.Copying? && s.reader.next == s.reader.end then s.(reader := Outside) else s
  }

  const INITIAL: State := State(['0', '0', '0', '0', '0', '0'], false, Outside, ['0', '0', '0', '0', '0', '0'])

  function Run(events: seq<Event>): (s: State)
    ensures Shaped(s)
  {
    if events == [] then INITIAL else Step(Run(events[..|events| - 1]), events[|events| - 1])
  }

  // ---------- no key's latest state is lost ----------

  // Every key whose value the user does not know yet is announced by the flag, or still to be copied.
  predicate NoStateLost(s: State)
    requires Shaped(s)
  {
    forall k | 0 <= k < KEYS && s.got[k] != s.keys[k] ::
      s.evPress || (s.reader.Copying? && s.reader.next <= k < s.reader.end)
  }

  // Reads ask for `count` bytes, and copies fault only if `mayFault`.
  predicate Allowed(e: Event, count: nat, mayFault: bool) {
    (e.Enter? ==> e.count == count) && (e.Fault? ==> mayFault)
  }

  predicate AllAllowed(events: seq<Event>, count: nat, mayFault: bool) {
    forall e <- events :: Allowed(e, count, mayFault)
  }

  predicate Full(reader: Reader) {
    (reader.Awake? ==> KEYS <= reader.count) && (reader.Copying? ==> reader.end == KEYS)
  }

  lemma {:induction false} NoStateLostAlways(events: seq<Event>, count: nat)
    requires KEYS <= count && AllAllowed(events, count, false)
    ensures NoStateLost(Run(events)) && Full(Run(events).reader)
    decreases |events|
  {
    if events != [] {
      var before := events[..|events| - 1];
      NoStateLostAlways(before, count);
      assert Allowed(events[|events| - 1], count, false);
    }
  }

  // A short read clears the flag without looking at the last key.
  lemma ShortReadLoses(count: nat)
    requires count < KEYS
    ensures var events := [Interrupt(5, false), Enter(count, true, false), Clear];
            AllAllowed(events, count, false) && !NoStateLost(Run(events))
  {
    var events := [Interrupt(5, false), Enter(count, true, false), Clear];
    assert events[..2] == [Interrupt(5, false), Enter(count, true, false)];
    assert events[..2][..1] == [Interrupt(5, false)];
    assert [Interrupt(5, false)][..0] == [];
    var s1 := Run([Interrupt(5, false)]);
    assert s1 == Step(INITIAL, Interrupt(5, false));
    var s2 := Run(events[..2]);
    assert s2 == Step(s1, Enter(count, true, false));
    assert Run(events) == Step(s2, Clear);
    assert s1.keys[5] == '1' && Run(events).got[5] == '0';
  }

  // A fault clears the flag without delivering.
  lemma FaultLoses(count: nat)
    ensures var events := [Interrupt(0, false), Enter(count, true, false), Clear, Fault];
            AllAllowed(events, count, true) && !NoStateLost(Run(events))
  {
    var events := [Interrupt(0, false), Enter(count, true, false), Clear, Fault];
    assert events[..3] == [Interrupt(0, false), Enter(count, true, false), Clear];
    assert events[..3][..2] == [Interrupt(0, false), Enter(count, true, false)];
    assert events[..3][..2][..1] == [Interrupt(0, false)];
    assert [Interrupt(0, false)][..0] == [];
    var s1 := Run([Interrupt(0, false)]);
    assert s1 == Step(INITIAL, Interrupt(0, false));
    var s2 := Run(events[..3][..2]);
    assert s2 == Step(s1, Enter(count, true, false));
    var s3 := Run(events[..3]);
    assert s3 == Step(s2, Clear);
    assert Run(events) == Step(s3, Fault);
    assert s1.keys[0] == '1' && Run(events).got[0] == '0';
  }

  // No key's latest state is ever lost, in whatever way interrupts and reader steps interleave, if
  // and only if reads ask for all six bytes and copies cannot fault.
  lemma NoLostStateIff(count: nat, mayFault: bool)
    ensures (forall events :: AllAllowed(events, count, mayFault) ==> NoStateLost(Run(events)))
            <==> KEYS <= count && !mayFault
  {
    if KEYS <= count && !mayFault {
      forall events | AllAllowed(events, count, mayFault)
        ensures NoStateLost(Run(events))
      {
        NoStateLostAlways(events, count);
      }
    } else if count < KEYS {
      ShortReadLoses(count);
      var events := [Interrupt(5, false), Enter(count, true, false), Clear];
      assert AllAllowed(events, count, mayFault);
    } else {
      FaultLoses(count);
    }
  }

  // Was the key down at its last interrupt?
  predicate DownAt(events: seq<Event>, k: nat) {
    events != [] &&
    var last := events[|events| - 1];
    if last.Interrupt? && last.number == k then !last.high else DownAt(events[..|events| - 1], k)
  }

  lemma {:induction false} KeysFollowPins(events: seq<Event>, k: nat)
    requires k < KEYS
    ensures Run(events).keys[k] == if DownAt(events, k) then '1' else '0'
    decreases |events|
  {
    if events != [] {
      KeysFollowPins(events[..|events| - 1], k);
    }
  }

  // States only, not changes: two changes of one key that no reader step separates cancel out.
  // They leave nothing behind but the flag, so no reader of any kind can ever see them.
  lemma PulseUnseen(events: seq<Event>, k: nat)
    requires k < KEYS
    ensures var s, down := Run(events), DownAt(events, k);
            && Run(events + [Interrupt(k, down)]).keys[k] != s.keys[k]
            && Run(events + [Interrupt(k, down), Interrupt(k, !down)]) == s.(evPress := true)
  {
    hide Step;
    var down := DownAt(events, k);
    var once, twice := events + [Interrupt(k, down)], events + [Interrupt(k, down), Interrupt(k, !down)];
    KeysFollowPins(events, k);
    assert once[..|events|] == events && twice[..|once|] == once;
    var s := Run(events);
    assert Run(once) == Step(s, Interrupt(k, down));
    assert Run(twice) == Step(Run(once), Interrupt(k, !down));
    PulseStep(s, k, down);
  }

  lemma PulseStep(s: State, k: nat, down: bool)
    requires Shaped(s) && k < KEYS && s.keys[k] == DownChar(down)
    ensures var s' := Step(s, Interrupt(k, down));
            s'.keys[k] != s.keys[k] && Step(s', Interrupt(k, !down)) == s.(evPress := true)
  {
    var s'' := Step(Step(s, Interrupt(k, down)), Interrupt(k, !down));
    assert s''.keys == s.keys;
  }

  // ---------- the flag ----------

  // Event n is an interrupt whose level differs from the key's last one / a reader past the wait
  // clears the flag.
  predicate Changes(events: seq<Event>, n: nat)
    requires n < |events|
  {
    events[n].Interrupt? && events[n].number < KEYS && !events[n].high != DownAt(events[..n], events[n].number)
  }

  predicate Clears(events: seq<Event>, n: nat)
    requires n < |events|
  {
    events[n].Clear? && Run(events[..n]).reader.Awake?
  }

  // Event n changed a key, and no reader has cleared the flag since.
  ghost predicate PendingSince(events: seq<Event>, n: nat) {
    n < |events| && Changes(events, n) && forall m | n < m < |events| :: !Clears(events, m)
  }

  // In every run the flag is up exactly if some key has changed since a reader last cleared it; an
  // interrupt that finds the level as it was does not raise it.
  lemma {:induction false} FlagMeans(events: seq<Event>)
    ensures Run(events).evPress <==> exists n :: PendingSince(events, n)
    decreases |events|
  {
    hide Run, Step, DownAt;
    if events == [] {
      assert !Run(events).evPress by { FlagStarts(); }
    } else {
      var before, last := events[..|events| - 1], |events| - 1;
      assert events[..last] == before;
      FlagMeans(before);
      FlagStep(events);
      if Changes(events, last) {
        assert PendingSince(events, last);
      } else if Clears(events, last) {
        assert forall n: nat | n < last :: !PendingSince(events, n);
      } else {
        forall n: nat
          ensures PendingSince(events, n) <==> PendingSince(before, n)
        {
          PendingSame(events, n);
        }
      }
    }
  }

  lemma FlagStarts()
    ensures !Run([]).evPress
  {
  }

  lemma FlagStep(events: seq<Event>)
    requires events != []
    ensures var last := |events| - 1;
            Run(events).evPress
            <==> Changes(events, last) || (Run(events[..last]).evPress && !Clears(events, last))
  {
    hide Step, DownAt, Bit;
    var last := |events| - 1;
    StepFlag(Run(events[..last]), events[last]);
    if events[last].Interrupt? && events[last].number < KEYS {
      KeysFollowPins(events[..last], events[last].number);
      BitIs(DownAt(events[..last], events[last].number));
    }
  }

  lemma BitIs(down: bool)
    ensures Bit(DownChar(down)) == if down then 1 else 0
  {
  }

  lemma StepFlag(s: State, e: Event)
    requires Shaped(s)
    ensures Step(s, e).evPress <==>
              || (e.Interrupt? && e.number < KEYS && (if e.high then 0 else 1) != Bit(s.keys[e.number]))
              || (s.evPress && !(e.Clear? && s.reader.Awake?))
  {
    hide Bit;
  }

  lemma PendingSame(events: seq<Event>, n: nat)
    requires events != [] && !Changes(events, |events| - 1) && !Clears(events, |events| - 1)
    ensures PendingSince(events, n) <==> PendingSince(events[..|events| - 1], n)
  {
    hide Run, Step, DownAt;
    var before, last := events[..|events| - 1], |events| - 1;
    if n < last {
      assert forall m | 0 <= m < last :: before[..m] == events[..m];
      assert forall m | n < m < last :: Clears(events, m) == Clears(before, m);
    }
  }

  // ---------- delivery ----------

  // After every run: a reader outside gets in exactly if an event is pending, or if it is a blocking
  // one that a signal woke, and it gets in as it asked.
  lemma EnterGetsIn(events: seq<Event>, count: nat, nonblock: bool, signalled: bool)
    requires Run(events).reader.Outside?
    ensures var s, s' := Run(events), Run(events + [Enter(count, nonblock, signalled)]);
            s' == if s.evPress || (!nonblock && signalled) then s.(reader := Awake(count)) else s
  {
    assert (events + [Enter(count, nonblock, signalled)])[..|events|] == events;
  }

  function Copies(n: nat): (r: seq<Event>)
    ensures |r| == n && forall i | 0 <= i < n :: r[i] == CopyByte
  {
    if n == 0 then [] else Copies(n - 1) + [CopyByte]
  }

  // Once past the wait and past the clearing, n copy steps deliver the first n keys.
  lemma {:induction false} CopiesDeliver(events: seq<Event>, n: nat, end: nat)
    requires Run(events).reader == Copying(0, end) && n <= end <= KEYS
    ensures var s, s' := Run(events), Run(events + Copies(n));
            && s'.keys == s.keys && s'.evPress == s.evPress && s'.reader == Copying(n, end)
            && s'.got == s.keys[..n] + s.got[n..]
    decreases n
  {
    hide Step;
    if n == 0 {
      assert events + Copies(0) == events;
    } else {
      CopiesDeliver(events, n - 1, end);
      var all := events + Copies(n);
      assert all[..|all| - 1] == events + Copies(n - 1);
      assert Run(all) == Step(Run(events + Copies(n - 1)), CopyByte);
      CopyStep(Run(events + Copies(n - 1)), Run(events).got, n);
    }
  }

  lemma CopyStep(s: State, got: seq<char>, n: nat)
    requires Shaped(s) && 0 < n <= KEYS == |got|
    requires s.reader.Copying? && s.reader.next == n - 1 < s.reader.end && s.got == s.keys[..n - 1] + got[n - 1..]
    ensures Step(s, CopyByte) == s.(got := s.keys[..n] + got[n..], reader := Copying(n, s.reader.end))
  {
    assert s.got[n - 1 := s.keys[n - 1]] == s.keys[..n] + got[n..];
  }

  // A whole read with no interrupt in between: it gets in where EnterGetsIn says, and then the user
  // holds the states of as many keys as were asked for, or as were copied before a fault; the flag is
  // down either way, and the reader is outside.
  lemma ReadDelivers(events: seq<Event>, count: nat, nonblock: bool, signalled: bool, copied: nat, end: Event)
    requires Run(events).reader.Outside?
    requires Run(events).evPress || (!nonblock && signalled)
    requires copied <= count && copied <= 6
    requires end.Fault? || (end.Return? && copied == if count < 6 then count else 6)
    ensures var s := Run(events);
            Run(events + [Enter(count, nonblock, signalled)] + [Clear] + Copies(copied) + [end])
            == State(s.keys, false, Outside, s.keys[..copied] + s.got[copied..])
  {
    var entered := events + [Enter(count, nonblock, signalled)];
    var cleared := entered + [Clear];
    var done := cleared + Copies(copied);
    EnterGetsIn(events, count, nonblock, signalled);
    assert cleared[..|entered|] == entered;
    assert Run(cleared) == Step(Run(entered), Clear);
    CopiesDeliver(cleared, copied, Min(KEYS, count));
    assert (done + [end])[..|done|] == done;
    assert Run(done + [end]) == Step(Run(done), end);
  }

  // ---------- what a blocked reader knows ----------

  // A reader that would have to wait already holds, for every key, the level of its last interrupt.
  lemma BlockedReaderKnows(events: seq<Event>, count: nat)
    requires KEYS <= count && AllAllowed(events, count, false)
    requires Run(events).reader.Outside? && !Run(events).evPress
    ensures forall k | 0 <= k < KEYS :: Run(events).got[k] == if DownAt(events, k) then '1' else '0'
  {
    NoStateLostAlways(events, count);
    forall k | 0 <= k < KEYS
      ensures Run(events).got[k] == if DownAt(events, k) then '1' else '0'
    {
      KeysFollowPins(events, k);
    }
  }

  // ---------- the driver ----------

  class Buttons {
    var keyValues: array<char>
    var evPress: bool
    var reader: Reader
    var buff: array<char>  // the user's buffer

    ghost predicate Valid()
      reads this, keyValues, buff
    {
      keyValues.Length == KEYS && buff.Length == KEYS && keyValues != buff && Shaped(Now())
    }

    ghost function Now(): State
      reads this, keyValues, buff
    {
      State(keyValues[..], evPress, reader, buff[..])
    }

    constructor ()
      ensures Valid() && Now() == INITIAL && fresh(keyValues) && fresh(buff)
    {
      keyValues := new char[6](_ => '0');
      buff := new char[6](_ => '0');
      evPress := false;
      reader := Outside;
    }

    // buttons_interrupt
    method OnInterrupt(number: nat, high: bool)
      requires Valid() && number < KEYS
      modifies this`evPress, keyValues
      ensures Valid() && Now() == Step(old(Now()), Interrupt(number, high))
    {
      var down := if high then 0 else 1;
      if down != keyValues[number] as int % 2 {
        keyValues[number] := ('0' as int + down) as char;
        evPress := true;
      }
    }

    // The first half of s3c24xx_buttons_read: returns an error, or gets past the wait, or keeps waiting.
    method ReadEnter(count: nat, nonblock: bool, signalled: bool) returns (ret: Ret)
      requires Valid() && reader.Outside?
      modifies this`reader
      ensures Valid() && Now() == Step(old(Now()), Enter(count, nonblock, signalled))
      ensures reader == if evPress || (!nonblock && signalled) then Awake(count) else Outside
      ensures ret == if !evPress && nonblock then Err(EAGAIN) else Ok(0)
    {
      if !evPress {
        if nonblock {
          return Err(EAGAIN);
        } else if !signalled {
          return Ok(0);
        }
      }
      reader := Awake(count);
      return Ok(0);
    }

    method ReadClear()
      requires Valid() && reader.Awake?
      modifies this`evPress, this`reader
      ensures Valid() && Now() == Step(old(Now()), Clear)
      ensures !evPress && reader == Copying(0, if old(reader).count < 6 then old(reader).count else 6)
    {
      evPress := false;
      reader := Copying(0, Min(KEYS, reader.count));
    }

    method ReadByte()
      requires Valid() && reader.Copying? && reader.next < reader.end
      modifies this`reader, buff
      ensures Valid() && Now() == Step(old(Now()), CopyByte)
    {
      buff[reader.next] := keyValues[reader.next];
      reader := Copying(reader.next + 1, reader.end);
    }

    // The end of the read: a fault, or all bytes copied.
    method ReadReturn(fault: bool) returns (ret: Ret)
      requires Valid() && reader.Copying? && (fault || reader.next == reader.end)
      modifies this`reader
      ensures Valid() && Now() == Step(old(Now()), if fault then Fault else Return)
      ensures ret == if fault then Err(EFAULT) else Ok(old(reader.end))
    {
      ret := if fault then Err(EFAULT) else Ok(reader.end);
      reader := Outside;
    }

    // s3c24xx_buttons_poll: readable exactly when a non-blocking read would get past the test.
    method Poll() returns (readable: bool)
      requires Valid()
      ensures readable <==> evPress
      ensures readable <==> Step(Now().(reader := Outside), Enter(KEYS, true, false)).reader.Awake?
    {
      readable := evPress;
    }
  }
}
