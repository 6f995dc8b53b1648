/** Board-level vocabulary of the occupancy panel: the width of the counter,
    the capacity, the three button pins and the per-line records used for
    interrupt enables and semaphore counts. */
module Board {

  datatype Option<T> = None | Some(value: T)

  /** `uint8_t`, the C type of the occupancy counter `usuarios`. */
  newtype UInt8 = x: int | 0 <= x < 0x100

  /** `MAX_USERS`: the capacity of the room. */
  const MaxUsers: int := 8

  /** Button pins (`BOTAO_A`, `BOTAO_B`, `BOTAO_JOYSTICK`). */
  const ButtonA: int := 5
  const ButtonB: int := 6
  const ButtonJoystick: int := 22

  /** The three event sources: entry (button A), exit (button B), reset (joystick button). */
  datatype Line = EntryLine | ExitLine | ResetLine

  function Pin(l: Line): int
  {
    match l
    case EntryLine => ButtonA
    case ExitLine => ButtonB
    case ResetLine => ButtonJoystick
  }

  /** The interrupt handler's if-chain on the gpio number: which event source,
      if any, a pin belongs to. */
  function LineOf(gpio: int): (r: Option<Line>)
    ensures r.Some? <==> gpio == ButtonA || gpio == ButtonB || gpio == ButtonJoystick
    ensures r.Some? ==> Pin(r.value) == gpio
  {
    if gpio == ButtonA then Some(EntryLine)
    else if gpio == ButtonB then Some(ExitLine)
    else if gpio == ButtonJoystick then Some(ResetLine)
    else None
  }

  /** One value per event source. */
  datatype Lines<T> = Lines(entry: T, exit: T, reset: T) {

    function Get(l: Line): T
    {
      match l
      case EntryLine => entry
      case ExitLine => exit
      case ResetLine => reset
    }

    function Set(l: Line, v: T): (r: Lines<T>)
      ensures r.Get(l) == v
      ensures forall o :: o != l ==> r.Get(o) == Get(o)
    {
      match l
      case EntryLine => this.(entry := v)
      case ExitLine => this.(exit := v)
      case ResetLine => this.(reset := v)
    }
  }

  /** `usuarios++` on a `uint8_t`: wraps from 255 to 0. */
  function Increment(n: UInt8): (r: UInt8)
    ensures n < 0xFF ==> r as int == n as int + 1
    ensures n == 0xFF ==> r == 0
  {
    ((n as int + 1) % 0x100) as UInt8
  }

  /** `usuarios--` on a `uint8_t`: wraps from 0 to 255. */
  function Decrement(n: UInt8): (r: UInt8)
    ensures n > 0 ==> r as int == n as int - 1
    ensures n == 0 ==> r == 0xFF
  {
    ((n as int - 1) % 0x100) as UInt8
  }
}
