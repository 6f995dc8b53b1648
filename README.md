# Occupancy panel: a verified model

This project models the firmware of a room-occupancy panel on a Raspberry Pi Pico that runs FreeRTOS. Button A records an entry, button B an exit, and the joystick button resets the count. Each button has a falling-edge interrupt. The interrupt handler masks the button that fired and gives that button's semaphore. The task that owns the button takes the signal and updates the occupancy count `usuarios`, which is bounded by `MAX_USERS = 8`. The task then chooses the status message and lights the blue, red and green LEDs through a threshold chain. It may also pulse the buzzer. Last, it unmasks its own button.

The model treats the handler, and each task's pass through its loop body, as one atomic step:

- `board.dfy` (module `Board`): the `uint8_t` counter type with its wrapping `++` and `--`, the capacity, the three button pins and the handler's pin-to-button mapping.
- `feedback.dfy` (module `Feedback`): the LED threshold chain `Leds`, the occupancy bands it implements, the status messages and the buzzer pulse pattern.
- `controller.dfy` (module `Controller`): the shared state as a value. It holds the count, the three interrupt enables, the three semaphore counts and the LED levels. The handler and the three task passes are functions on that state. A masked button drops its edges. An event is any edge or task pass, and the lemmas cover every sequence of events.
- `firmware.dfy` (module `Firmware`): the class `Panel`. Its fields are those globals and peripheral states. Its methods `Irq`, `ProcessEntry`, `ProcessExit` and `ProcessReset` update them in place, and each method is proved to match the corresponding `Controller` function.

Where the written design of the system and its code disagree, the model follows the code:

- The design calls the band at capacity−1 "yellow". The code lights red and green together there.
- The design describes the buzzer as part of a feedback state derived from the count. In the code the buzzer depends on the event's outcome instead: one pulse when an entry is refused, two on reset, never on exit.

## Model

| member | source | states |
|---|---|---|
| `Board.LineOf` | PainelDeControle.c:72-86 | Pins 5, 6 and 22, and only those, belong to a button, and the button found is the one whose pin is the gpio given. |
| `Board.Increment` | PainelDeControle.c:101 | `usuarios++` on `uint8_t` adds one below 255 and wraps 255 to 0. |
| `Board.Decrement` | PainelDeControle.c:156 | `usuarios--` on `uint8_t` subtracts one above 0 and wraps 0 to 255. |
| `Feedback.Leds` | PainelDeControle.c:115-138 | The chain lights something exactly when the count is at most capacity. Blue is lit iff the count is 0. Red is lit iff the count is at least capacity−1. Green is lit iff the count is strictly between 0 and capacity. |
| `Feedback.LedsFollowBands` | PainelDeControle.c:115-138 | Every count up to capacity lies in exactly one band (0, 1..capacity−2, capacity−1, capacity), and the chain lights that band's lamps. A count above capacity lies in no band. |
| `Feedback.ChainGuards` | PainelDeControle.c:115-127 | The `usuarios >= 0` test is vacuous. The first two guards overlap only at 0, where the earlier one wins. |
| `Feedback.Pulses` | PainelDeControle.c:111-113 | `k` pulses are `2k` buzzer writes, alternating on and off and starting with on, so the buzzer always ends silent. |
| `Controller.Init` | PainelDeControle.c:246-275 | The state after start-up satisfies the invariant. |
| `Controller.Give` | PainelDeControle.c:273-275 | A give never takes a semaphore past its capacity of 1. It adds one signal exactly when the semaphore is below capacity. A give on a full semaphore leaves exactly one signal pending. No other semaphore changes. |
| `Controller.Irq` | PainelDeControle.c:69-88 | For a button pin, the handler masks that button and gives its semaphore. Every other line, the count and the LEDs stay unchanged. Any other pin changes nothing. The handler keeps the invariant. |
| `Controller.Entry` | PainelDeControle.c:97-141 | With no signal, nothing happens. Otherwise the task consumes one signal, unmasks its own line and no other, and then takes one of two branches. Below capacity, the count rises by one and the message is "user entered" with no buzzer. At capacity, the count is unchanged, the message is "no capacity" and the buzzer pulses once. The count text shows the new count. The invariant is kept. |
| `Controller.Exit` | PainelDeControle.c:152-193 | With no signal, nothing happens. Otherwise the task consumes one signal and unmasks its own line only. Above 0, the count falls by one with the message "user left". At 0, it stays 0 with the message "no users". The buzzer is never written. The invariant is kept. |
| `Controller.Reset` | PainelDeControle.c:204-222 | With no signal, nothing happens. Otherwise the task consumes one signal and unmasks its own line only. The count becomes 0 and only blue is lit. The message is "system reset" with the labelled count `0/8`, and the buzzer pulses twice. The invariant is kept. |
| `Controller.StepKeepsInv` | PainelDeControle.c:69-222 | Any edge or task pass keeps the invariant. |
| `Controller.RunKeepsInv` | PainelDeControle.c:69-222 | Any sequence of edges and task passes keeps the invariant. The invariant says: the count is in 0..capacity, each semaphore holds at most 1 signal, a button is masked exactly while its signal waits, and the LEDs show the count. |
| `Controller.Bounded` | PainelDeControle.c:99-101 | From start-up, any sequence of events keeps 0 ≤ `usuarios` ≤ `MAX_USERS`. |
| `Controller.FullRoomEntryRefused` | PainelDeControle.c:106-114 | An entry press at capacity shows "no capacity" with count 8/8 and pulses the buzzer once. |
| `Controller.FullRoomEntryIdempotent` | PainelDeControle.c:99-114 | Any number of entry presses at capacity leave the whole state unchanged. |
| `Controller.EmptyRoomExitIdempotent` | PainelDeControle.c:154-166 | Any number of exit presses in an empty room leave the whole state unchanged. |
| `Controller.ResetAbsorbing` | PainelDeControle.c:204-221 | From any state, a reset press gives count 0 and blue only, and leaves the entry and exit lines and semaphores as they were. A second reset press changes nothing. The buzzer writes are on, off, on, off. |
| `Controller.BouncesMasked` | PainelDeControle.c:72-86 | The first edge on an armed button masks it and leaves exactly one signal pending. Any number of further edges on that button are dropped. |
| `Controller.BouncyEntryCountsOnce` | PainelDeControle.c:72-101 | A press of button A followed by any number of bounces, then the entry task's pass, admits exactly one user. |
| `Controller.EntriesWithRoom` | PainelDeControle.c:99-105 | While there is room, k entry presses admit exactly k users. Enables and semaphores end as they began. |
| `Controller.ExitWithUsers` | PainelDeControle.c:154-160 | With someone inside, an exit press lets exactly one user out. Enables and semaphores end as they began. |
| `Controller.Walkthrough` | PainelDeControle.c:91-221 | From start-up the walkthrough runs as follows. Six entries give count 6 with green. A seventh gives red and green, and an eighth gives red. A ninth is refused with one pulse and changes nothing. An exit gives 7 with red and green. A reset gives 0 with blue and two pulses. |
| `Firmware.Panel.constructor` | PainelDeControle.c:246-275 | The new panel's fields equal the start-up state. |
| `Firmware.Panel.Irq` | PainelDeControle.c:69-88 | The in-place handler leaves the fields equal to `Controller.Irq` of their old values and keeps the invariant. |
| `Firmware.Panel.ShowOccupancy` | PainelDeControle.c:115-138 | The in-place chain writes exactly the LED levels `Leds` gives. When no branch fires, the pins are left as they were. |
| `Firmware.Panel.ProcessEntry` | PainelDeControle.c:97-141 | The in-place entry pass leaves the fields and the report equal to `Controller.Entry` of the old fields. |
| `Firmware.Panel.ProcessExit` | PainelDeControle.c:152-193 | The in-place exit pass leaves the fields and the report equal to `Controller.Exit` of the old fields. |
| `Firmware.Panel.ProcessReset` | PainelDeControle.c:204-222 | The in-place reset pass leaves the fields and the report equal to `Controller.Reset` of the old fields. |

## Left out

- Task scheduling is not modelled: priorities (PainelDeControle.c:279-281), preemption, `portYIELD_FROM_ISR`, and blocking in `xSemaphoreTake` and on the display mutex. Each handler call and each task pass is one atomic step. A task whose semaphore is empty stays blocked, which the model shows as the `Blocked` report with no state change.
- The unguarded read-modify-write of `usuarios` by two tasks can race. The model cannot show this because its steps are atomic.
- `vTaskDelay` timing is not modelled: the 200 ms settle delay and the beep lengths. The buzzer is the ordered list of on/off writes.
- The display is kept abstract. `update_oled_display`, the `ssd1306_*` calls, the mutex and `sprintf` (PainelDeControle.c:52-66) become the chosen message and a (labelled, count, capacity) value for the count text.
- Hardware set-up in `main` is not modelled: I2C, GPIO directions, pull-ups, and the PWM wrap and floating-point clock divider. So is the PWM level 2048; the buzzer is only on or off.
- `main` enables the button interrupts (PainelDeControle.c:269-271) before it creates the semaphores (PainelDeControle.c:273-275). A press in that window would give a semaphore that does not exist yet. `Controller.Init` is the state after start-up finishes, so that window is not modelled.
- The unused counter `eventosProcessados` (PainelDeControle.c:49) is not modelled.
- The edge-masking step (`Controller.Masked`) describes the interrupt controller rather than code in the repository. It assumes an edge on a masked button is dropped and not delivered later.
