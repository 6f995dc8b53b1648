/** The occupancy panel as a sequential state machine. Each step is atomic:
    the button interrupt handler, or one complete pass of a task's loop body
    (take the semaphore, update the count, show the feedback, unmask the
    button). Scheduling, delays and the display mutex are not part of it. */
module Controller {
  import opened Board
  import opened Feedback

  /** What the handler and the tasks share: the count `usuarios`, whether each
      button's falling-edge interrupt is enabled, how many signals each
      semaphore holds, and the levels of the three LED pins. */
  datatype State = State(users: UInt8, enabled: Lines<bool>, pending: Lines<nat>, leds: LedState)

  /** Semaphore capacities: counting semaphores of maximum 1 for entry and
      exit, a binary semaphore for reset. */
  const Capacity: Lines<nat> := Lines(1, 1, 1)

  /** The state once start-up is done: nobody inside, all three buttons
      armed, no signal pending, only the blue LED lit. */
  function Init(): (s: State)
    ensures Inv(s)
  {
    State(0, Lines(true, true, true), Lines(0, 0, 0), BlueOnly)
  }

  /** The invariant every step keeps: the count is within capacity, no
      semaphore holds more than its capacity, a button is masked exactly
      while its signal waits to be served, and the LEDs show the count. */
  ghost predicate Inv(s: State)
  {
    && s.users as int <= MaxUsers
    && (forall l :: s.pending.Get(l) <= Capacity.Get(l))
    && (forall l :: s.enabled.Get(l) <==> s.pending.Get(l) == 0)
    && Leds(s.users) == Some(s.leds)
  }

  /** Giving from the interrupt handler: one more pending signal unless the
      semaphore is full, in which case the give fails and nothing changes. */
  function Give(p: Lines<nat>, l: Line): (r: Lines<nat>)
    ensures p.Get(l) <= Capacity.Get(l) ==> 0 < r.Get(l) <= Capacity.Get(l)
    ensures p.Get(l) <= r.Get(l) <= p.Get(l) + 1
    ensures r.Get(l) == p.Get(l) + 1 <==> p.Get(l) < Capacity.Get(l)
    ensures forall o :: o != l ==> r.Get(o) == p.Get(o)
  {
    if p.Get(l) < Capacity.Get(l) then p.Set(l, p.Get(l) + 1) else p
  }

  /** `gpio_irq_handler`: for a button pin, mask that pin's falling edge and
      give that button's semaphore; any other pin changes nothing. */
  function Irq(s: State, gpio: int): (r: State)
    ensures LineOf(gpio).None? ==> r == s
    ensures LineOf(gpio).Some? ==>
      var l := LineOf(gpio).value;
      && !r.enabled.Get(l)
      && r.pending.Get(l) == Give(s.pending, l).Get(l)
      && r.users == s.users && r.leds == s.leds
      && (forall o :: o != l ==> r.enabled.Get(o) == s.enabled.Get(o) && r.pending.Get(o) == s.pending.Get(o))
    ensures Inv(s) ==> Inv(r)
  {
    match LineOf(gpio)
    case None => s
    case Some(l) => s.(enabled := s.enabled.Set(l, false), pending := Give(s.pending, l))
  }

  /** A task that has served an event on line `l`: it consumed one signal of
      its own semaphore and unmasked its own button, and no other line's
      enable or semaphore moved. */
  ghost predicate Served(s: State, t: State, l: Line)
  {
    && s.pending.Get(l) > 0
    && t.pending.Get(l) == s.pending.Get(l) - 1
    && t.enabled.Get(l)
    && (forall o :: o != l ==> t.enabled.Get(o) == s.enabled.Get(o) && t.pending.Get(o) == s.pending.Get(o))
  }

  /** The new state and what the user saw. */
  datatype Outcome = Outcome(state: State, report: Report)

  /** The LED pins after the threshold chain: unchanged when no branch fires. */
  function ShowCount(n: UInt8, leds: LedState): LedState
  {
    match Leds(n)
    case Some(v) => v
    case None => leds
  }

  /** Take the signal of line `l` and unmask its button. */
  function Release(s: State, l: Line): State
    requires s.pending.Get(l) > 0
  {
    s.(pending := s.pending.Set(l, s.pending.Get(l) - 1), enabled := s.enabled.Set(l, true))
  }

  /** One pass of the entry task: admit a user when there is room, otherwise
      refuse with one buzzer pulse; then the LEDs and the unmasking. */
  function Entry(s: State): (o: Outcome)
    ensures s.pending.entry == 0 ==> o == Outcome(s, Blocked)
    ensures s.pending.entry > 0 ==> Served(s, o.state, EntryLine)
    ensures s.pending.entry > 0 && s.users as int < MaxUsers ==>
      && o.state.users as int == s.users as int + 1
      && o.report == Shown(UserEntered, CountText(false, s.users as int + 1, MaxUsers), [])
    ensures s.pending.entry > 0 && s.users as int >= MaxUsers ==>
      && o.state.users == s.users
      && o.report == Shown(NoCapacity, CountText(false, s.users as int, MaxUsers), Pulses(1))
    ensures Inv(s) ==> Inv(o.state)
  {
    if s.pending.entry == 0 then Outcome(s, Blocked)
    else
      var admit := s.users as int < MaxUsers;
      var n := if admit then Increment(s.users) else s.users;
      var t := Release(s, EntryLine).(users := n, leds := ShowCount(n, s.leds));
      Outcome(t, Shown(if admit then UserEntered else NoCapacity,
                       CountText(false, n as int, MaxUsers),
                       if admit then [] else Pulses(1)))
  }

  /** One pass of the exit task: let a user out when there is one, otherwise
      say the room is empty; the buzzer is never used. */
  function Exit(s: State): (o: Outcome)
    ensures s.pending.exit == 0 ==> o == Outcome(s, Blocked)
    ensures s.pending.exit > 0 ==> Served(s, o.state, ExitLine)
    ensures s.pending.exit > 0 && s.users > 0 ==>
      && o.state.users as int == s.users as int - 1
      && o.report == Shown(UserLeft, CountText(false, s.users as int - 1, MaxUsers), [])
    ensures s.pending.exit > 0 && s.users == 0 ==>
      && o.state.users == 0
      && o.report == Shown(NoUsers, CountText(false, 0, MaxUsers), [])
    ensures Inv(s) ==> Inv(o.state)
  {
    if s.pending.exit == 0 then Outcome(s, Blocked)
    else
      var leave := s.users > 0;
      var n := if leave then Decrement(s.users) else s.users;
      var t := Release(s, ExitLine).(users := n, leds := ShowCount(n, s.leds));
      Outcome(t, Shown(if leave then UserLeft else NoUsers, CountText(false, n as int, MaxUsers), []))
  }

  /** One pass of the reset task: empty the room whatever the count, light
      blue only and beep twice. */
  function Reset(s: State): (o: Outcome)
    ensures s.pending.reset == 0 ==> o == Outcome(s, Blocked)
    ensures s.pending.reset > 0 ==>
      && Served(s, o.state, ResetLine)
      && o.state.users == 0
      && o.state.leds == BlueOnly
      && o.report == Shown(SystemReset, CountText(true, 0, MaxUsers), Pulses(2))
    ensures Inv(s) ==> Inv(o.state)
  {
    if s.pending.reset == 0 then Outcome(s, Blocked)
    else
      var t := Release(s, ResetLine).(users := 0, leds := BlueOnly);
      Outcome(t, Shown(SystemReset, CountText(true, 0, MaxUsers), Pulses(2)))
  }

  /** What can happen next: a falling edge on a pin, or one of the three
      tasks running one pass (it stays blocked when it has no signal). */
  datatype Event = Edge(gpio: int) | EntryTask | ExitTask | ResetTask

  /** An edge reaches the handler only when that pin's interrupt is enabled;
      edges on a masked button are dropped. */
  predicate Masked(s: State, gpio: int)
  {
    match LineOf(gpio)
    case None => true
    case Some(l) => !s.enabled.Get(l)
  }

  function Step(s: State, e: Event): State
  {
    match e
    case Edge(g) => if Masked(s, g) then s else Irq(s, g)
    case EntryTask => Entry(s).state
    case ExitTask => Exit(s).state
    case ResetTask => Reset(s).state
  }

  function Run(s: State, evs: seq<Event>): State
    decreases |evs|
  {
    if evs == [] then s else Run(Step(s, evs[0]), evs[1..])
  }

  function Repeat(evs: seq<Event>, k: nat): (r: seq<Event>)
    ensures |r| == k * |evs|
  {
    if k == 0 then [] else evs + Repeat(evs, k - 1)
  }

  function TaskOf(l: Line): Event
  {
    match l
    case EntryLine => EntryTask
    case ExitLine => ExitTask
    case ResetLine => ResetTask
  }

  /** One clean button press: the edge, then the owning task's pass. */
  function Press(l: Line): seq<Event>
  {
    [Edge(Pin(l)), TaskOf(l)]
  }

  lemma {:induction false} RunAppend(s: State, a: seq<Event>, b: seq<Event>)
    ensures Run(s, a + b) == Run(Run(s, a), b)
    decreases |a|
  {
    if a == [] {
      assert a + b == b;
    } else {
      assert (a + b)[1..] == a[1..] + b;
      RunAppend(Step(s, a[0]), a[1..], b);
    }
  }

  lemma StepKeepsInv(s: State, e: Event)
    requires Inv(s)
    ensures Inv(Step(s, e))
  {
  }

  /** The invariant, and with it 0 <= count <= capacity, holds after any
      sequence of edges and task passes. */
  lemma {:induction false} RunKeepsInv(s: State, evs: seq<Event>)
    requires Inv(s)
    ensures Inv(Run(s, evs))
    decreases |evs|
  {
    if evs != [] {
      StepKeepsInv(s, evs[0]);
      RunKeepsInv(Step(s, evs[0]), evs[1..]);
    }
  }

  lemma Bounded(evs: seq<Event>)
    ensures 0 <= Run(Init(), evs).users as int <= MaxUsers
  {
    RunKeepsInv(Init(), evs);
  }

  /** A press of the entry button at capacity changes nothing at all, however
      often it is repeated. */
  lemma {:induction false} FullRoomEntryIdempotent(s: State, k: nat)
    requires Inv(s) && s.users as int == MaxUsers && s.enabled.entry
    ensures Run(s, Repeat(Press(EntryLine), k)) == s
    decreases k
  {
    if k > 0 {
      var fired := Irq(s, ButtonA);
      assert Run(s, Press(EntryLine)) == s by {
        assert Step(s, Edge(ButtonA)) == fired;
        assert Entry(fired).state == s;
      }
      RunAppend(s, Press(EntryLine), Repeat(Press(EntryLine), k - 1));
      FullRoomEntryIdempotent(s, k - 1);
    }
  }

  /** At capacity an entry press is refused: the count stays, the message is
      the no-capacity one and the buzzer pulses once. */
  lemma FullRoomEntryRefused(s: State)
    requires Inv(s) && s.users as int == MaxUsers && s.enabled.entry
    ensures Entry(Irq(s, ButtonA)).report == Shown(NoCapacity, CountText(false, MaxUsers, MaxUsers), [true, false])
  {
  }

  /** A press of the exit button in an empty room changes nothing at all,
      however often it is repeated. */
  lemma {:induction false} EmptyRoomExitIdempotent(s: State, k: nat)
    requires Inv(s) && s.users == 0 && s.enabled.exit
    ensures Run(s, Repeat(Press(ExitLine), k)) == s
    decreases k
  {
    if k > 0 {
      var fired := Irq(s, ButtonB);
      assert Run(s, Press(ExitLine)) == s by {
        assert Step(s, Edge(ButtonB)) == fired;
        assert Exit(fired).state == s;
      }
      RunAppend(s, Press(ExitLine), Repeat(Press(ExitLine), k - 1));
      EmptyRoomExitIdempotent(s, k - 1);
    }
  }

  /** A reset press empties the room and lights blue only from any state,
      touching neither of the other buttons; a second reset changes nothing. */
  lemma ResetAbsorbing(s: State)
    requires Inv(s) && s.enabled.reset
    ensures Run(s, Press(ResetLine)) == s.(users := 0, leds := BlueOnly)
    ensures Run(Run(s, Press(ResetLine)), Press(ResetLine)) == Run(s, Press(ResetLine))
    ensures Reset(Irq(s, ButtonJoystick)).report == Shown(SystemReset, CountText(true, 0, MaxUsers), [true, false, true, false])
  {
  }

  /** Debounce by masking: the first edge on an armed button leaves exactly
      one signal pending and masks the button, and any number of further
      edges (bounces) on that button are dropped. */
  lemma {:induction false} BouncesMasked(s: State, l: Line, k: nat)
    requires Inv(s) && s.enabled.Get(l)
    ensures Step(s, Edge(Pin(l))).pending.Get(l) == 1
    ensures !Step(s, Edge(Pin(l))).enabled.Get(l)
    ensures Run(Step(s, Edge(Pin(l))), Repeat([Edge(Pin(l))], k)) == Step(s, Edge(Pin(l)))
    decreases k
  {
    var fired := Step(s, Edge(Pin(l)));
    assert LineOf(Pin(l)) == Some(l);
    if k > 0 {
      assert Step(fired, Edge(Pin(l))) == fired;
      RunAppend(fired, [Edge(Pin(l))], Repeat([Edge(Pin(l))], k - 1));
      BouncesMasked(s, l, k - 1);
    }
  }

  /** A bouncing press of the entry button admits exactly one user. */
  lemma BouncyEntryCountsOnce(s: State, k: nat)
    requires Inv(s) && s.enabled.entry && s.users as int < MaxUsers
    ensures Run(s, Repeat([Edge(ButtonA)], k + 1) + [EntryTask]).users as int == s.users as int + 1
  {
    var fired := Step(s, Edge(ButtonA));
    BouncesMasked(s, EntryLine, k);
    assert Repeat([Edge(ButtonA)], k + 1) == [Edge(ButtonA)] + Repeat([Edge(ButtonA)], k);
    RunAppend(s, Repeat([Edge(ButtonA)], k + 1), [EntryTask]);
    RunAppend(s, [Edge(ButtonA)], Repeat([Edge(ButtonA)], k));
    assert Run(s, [Edge(ButtonA)]) == fired;
  }

  /** While there is room, each press of the entry button admits one user
      and leaves the buttons and semaphores as they were. */
  lemma {:induction false} EntriesWithRoom(s: State, k: nat)
    requires Inv(s) && s.enabled.entry && s.users as int + k <= MaxUsers
    ensures var t := Run(s, Repeat(Press(EntryLine), k));
      && Inv(t)
      && t.users as int == s.users as int + k
      && t.enabled == s.enabled && t.pending == s.pending
    decreases k
  {
    if k > 0 {
      var next := Run(s, Press(EntryLine));
      assert next.users as int == s.users as int + 1 && next.enabled == s.enabled && next.pending == s.pending && Inv(next) by {
        var fired := Irq(s, ButtonA);
        assert Step(s, Edge(ButtonA)) == fired;
        assert next == Entry(fired).state;
        assert next.enabled == s.enabled.Set(EntryLine, false).Set(EntryLine, true);
      }
      RunAppend(s, Press(EntryLine), Repeat(Press(EntryLine), k - 1));
      EntriesWithRoom(next, k - 1);
    }
  }

  /** A press of the exit button with someone inside lets one user out and
      leaves the buttons and semaphores as they were. */
  lemma ExitWithUsers(s: State)
    requires Inv(s) && s.enabled.exit && s.users > 0
    ensures var t := Run(s, Press(ExitLine));
      && Inv(t)
      && t.users as int == s.users as int - 1
      && t.enabled == s.enabled && t.pending == s.pending
  {
  }

  /** A worked scenario with a capacity of 8: six entries
      (green), a seventh (red and green), an eighth (red), a ninth refused
      with one pulse, an exit (red and green again), then a reset (blue,
      two pulses). */
  lemma Walkthrough()
    ensures var s6 := Run(Init(), Repeat(Press(EntryLine), 6));
      var s7 := Run(s6, Press(EntryLine));
      var s8 := Run(s7, Press(EntryLine));
      var s9 := Run(s8, Press(EntryLine));
      var out := Run(s9, Press(ExitLine));
      var reset := Run(out, Press(ResetLine));
      && s6.users == 6 && s6.leds == GreenOnly
      && s7.users == 7 && s7.leds == RedAndGreen
      && s8.users == 8 && s8.leds == RedOnly
      && Entry(Irq(s8, ButtonA)).report == Shown(NoCapacity, CountText(false, 8, 8), [true, false])
      && s9 == s8
      && out.users == 7 && out.leds == RedAndGreen
      && reset.users == 0 && reset.leds == BlueOnly
      && Reset(Irq(out, ButtonJoystick)).report == Shown(SystemReset, CountText(true, 0, 8), [true, false, true, false])
  {
    var s0 := Init();
    EntriesWithRoom(s0, 6);
    var s6 := Run(s0, Repeat(Press(EntryLine), 6));
    assert s6.users == 6 && s6.leds == GreenOnly;
    assert Repeat(Press(EntryLine), 1) == Press(EntryLine);
    EntriesWithRoom(s6, 1);
    var s7 := Run(s6, Press(EntryLine));
    assert s7.users == 7 && s7.leds == RedAndGreen;
    EntriesWithRoom(s7, 1);
    var s8 := Run(s7, Press(EntryLine));
    assert s8.users == 8 && s8.leds == RedOnly;
    FullRoomEntryRefused(s8);
    FullRoomEntryIdempotent(s8, 1);
    var s9 := Run(s8, Press(EntryLine));
    assert s9 == s8;
    ExitWithUsers(s9);
    var out := Run(s9, Press(ExitLine));
    assert out.users == 7 && out.leds == RedAndGreen;
    ResetAbsorbing(out);
  }
}
