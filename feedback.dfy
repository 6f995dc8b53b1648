/** What one processed event shows the user: the three status LEDs, the
    message on the display with its "count/capacity" text, and the buzzer. */
module Feedback {
  import opened Board

  /** Levels written to `led_BLUE`, `led_RED` and `led_GREEN`. */
  datatype LedState = LedState(blue: bool, red: bool, green: bool)

  const BlueOnly := LedState(true, false, false)
  const GreenOnly := LedState(false, false, true)
  const RedAndGreen := LedState(false, true, true)
  const RedOnly := LedState(false, true, false)

  /** The threshold chain run by the entry and exit tasks after they update
      the count. Its branches are tried in order; when none fires the pins
      keep their previous levels, which is `None` here. */
  function Leds(n: UInt8): (r: Option<LedState>)
    ensures r.Some? <==> n as int <= MaxUsers
    // Each LED has a threshold of its own: blue marks an empty room, red a
    // room at most one place from full, green a room that is neither empty
    // nor full.
    ensures r.Some? ==> (r.value.blue <==> n == 0)
    ensures r.Some? ==> (r.value.red <==> n as int >= MaxUsers - 1)
    ensures r.Some? ==> (r.value.green <==> 0 < n as int < MaxUsers)
  {
    if n == 0 then Some(BlueOnly)
    else if n >= 0 && n as int <= MaxUsers - 2 then Some(GreenOnly)
    else if n as int == MaxUsers - 1 then Some(RedAndGreen)
    else if n as int == MaxUsers then Some(RedOnly)
    else None
  }

  /** The occupancy bands of the feedback table; yellow is shown by lighting
      red and green together. */
  datatype Colour = Blue | Green | Yellow | Red

  function Lamps(c: Colour): LedState
  {
    match c
    case Blue => BlueOnly
    case Green => GreenOnly
    case Yellow => RedAndGreen
    case Red => RedOnly
  }

  /** The table by ranges: 0, 1..capacity-2, capacity-1, capacity. */
  ghost predicate InBand(n: UInt8, c: Colour)
  {
    match c
    case Blue => n == 0
    case Green => 1 <= n as int <= MaxUsers - 2
    case Yellow => n as int == MaxUsers - 1
    case Red => n as int == MaxUsers
  }

  /** Every in-range count lies in exactly one band, and the chain lights
      exactly that band's lamps; a count above capacity lies in none. */
  lemma LedsFollowBands(n: UInt8)
    ensures n as int <= MaxUsers ==> exists c :: InBand(n, c)
    ensures forall c, d :: InBand(n, c) && InBand(n, d) ==> c == d
    ensures forall c :: InBand(n, c) ==> Leds(n) == Some(Lamps(c))
    ensures n as int > MaxUsers ==> forall c :: !InBand(n, c)
  {
    if n == 0 {
      assert InBand(n, Blue);
    } else if n as int <= MaxUsers - 2 {
      assert InBand(n, Green);
    } else if n as int == MaxUsers - 1 {
      assert InBand(n, Yellow);
    } else if n as int == MaxUsers {
      assert InBand(n, Red);
    }
  }

  /** The guards of the chain as written. The `n >= 0` half of the second is
      vacuous for an unsigned count, and the first two overlap only at 0,
      where the first one, tried earlier, wins. */
  lemma ChainGuards(n: UInt8)
    ensures (n >= 0 && n as int <= MaxUsers - 2) <==> n as int <= MaxUsers - 2
    ensures (n == 0 && n as int <= MaxUsers - 2) <==> n == 0
    ensures n as int == MaxUsers - 1 ==> !(n as int <= MaxUsers - 2) && n != MaxUsers as UInt8
  {
  }

  /** Status line chosen by a task (the second argument of its display update). */
  datatype Message = UserEntered | NoCapacity | UserLeft | NoUsers | SystemReset

  /** Heading shown on every update. */
  const Heading: string := "Usuarios:"

  function Text(m: Message): string
  {
    match m
    case UserEntered => "Usuario entrou!"
    case NoCapacity => "Sem capacidade"
    case UserLeft => "Usuario saiu!"
    case NoUsers => "Sem usuarios!"
    case SystemReset => "Sistema reiniciou!"
  }

  /** The count line: `shown/capacity`, prefixed with the heading when
      `labelled` (the reset task formats it that way). */
  datatype CountText = CountText(labelled: bool, shown: int, capacity: int)

  /** The buzzer levels a task writes, in order (`true` for the tone,
      `false` for silence): `k` pulses, each switched on and then off. */
  function Pulses(k: nat): (r: seq<bool>)
    ensures |r| == 2 * k
    ensures forall i :: 0 <= i < |r| ==> r[i] == (i % 2 == 0)
  {
    if k == 0 then [] else [true, false] + Pulses(k - 1)
  }

  /** What a task did for one event: blocked on its empty semaphore, or
      showed a message with the count and wrote these buzzer levels. */
  datatype Report = Blocked | Shown(message: Message, count: CountText, buzzer: seq<bool>)
}
