/** The panel as the firmware keeps it: globals and peripheral state that the
    interrupt handler and the three tasks update in place. Each method is one
    atomic step and is proved against the matching step of `Controller`. */
module Firmware {
  import opened Board
  import opened Feedback
  import Controller

  class Panel {
    /** `usuarios` */
    var users: UInt8
    /** Falling-edge interrupt enable of each button. */
    var entryEnabled: bool
    var exitEnabled: bool
    var resetEnabled: bool
    /** Signals held by each button's semaphore. */
    var entrySignals: nat
    var exitSignals: nat
    var resetSignals: nat
    /** Output levels of the three LED pins. */
    var blue: bool
    var red: bool
    var green: bool

    function Snapshot(): Controller.State
      reads this
    {
      Controller.State(users, Lines(entryEnabled, exitEnabled, resetEnabled),
                       Lines(entrySignals, exitSignals, resetSignals), LedState(blue, red, green))
    }

    ghost predicate Valid()
      reads this
    {
      Controller.Inv(Snapshot())
    }

    /** Start-up: count zero, blue LED on, buttons armed, semaphores empty. */
    constructor ()
      ensures Snapshot() == Controller.Init()
      ensures Valid()
    {
      users := 0;
      blue, red, green := true, false, false;
      entryEnabled, exitEnabled, resetEnabled := true, true, true;
      entrySignals, exitSignals, resetSignals := 0, 0, 0;
    }

    /** The button interrupt handler. */
    method Irq(gpio: int)
      modifies this
      ensures Snapshot() == Controller.Irq(old(Snapshot()), gpio)
      ensures old(Valid()) ==> Valid()
    {
      if gpio == ButtonA {
        entryEnabled := false;
        if entrySignals < Controller.Capacity.entry {
          entrySignals := entrySignals + 1;
        }
      } else if gpio == ButtonB {
        exitEnabled := false;
        if exitSignals < Controller.Capacity.exit {
          exitSignals := exitSignals + 1;
        }
      } else if gpio == ButtonJoystick {
        resetEnabled := false;
        if resetSignals < Controller.Capacity.reset {
          resetSignals := resetSignals + 1;
        }
      }
    }

    /** The threshold chain shared by the entry and exit tasks: one pin write
        per LED in the branch that fires, none when no branch does. */
    method ShowOccupancy()
      modifies this`blue, this`red, this`green
      ensures LedState(blue, red, green) == Controller.ShowCount(users, old(LedState(blue, red, green)))
    {
      if users == 0 {
        blue := true;
        red := false;
        green := false;
      } else if users >= 0 && users as int <= MaxUsers - 2 {
        blue := false;
        red := false;
        green := true;
      } else if users as int == MaxUsers - 1 {
        blue := false;
        red := true;
        green := true;
      } else if users as int == MaxUsers {
        blue := false;
        red := true;
        green := false;
      }
    }

    /** One pass of the entry task's loop. */
    method ProcessEntry() returns (report: Report)
      modifies this
      ensures Snapshot() == Controller.Entry(old(Snapshot())).state
      ensures report == Controller.Entry(old(Snapshot())).report
      ensures old(Valid()) ==> Valid()
    {
      if entrySignals == 0 {
        report := Blocked;
        return;
      }
      entrySignals := entrySignals - 1;
      var message: Message;
      var buzzer: seq<bool> := [];
      if users as int < MaxUsers {
        users := Increment(users);
        message := UserEntered;
      } else {
        message := NoCapacity;
        buzzer := buzzer + [true];
        buzzer := buzzer + [false];
      }
      var shown := CountText(false, users as int, MaxUsers);
      ShowOccupancy();
      entryEnabled := true;
      report := Shown(message, shown, buzzer);
    }

    /** One pass of the exit task's loop. */
    method ProcessExit() returns (report: Report)
      modifies this
      ensures Snapshot() == Controller.Exit(old(Snapshot())).state
      ensures report == Controller.Exit(old(Snapshot())).report
      ensures old(Valid()) ==> Valid()
    {
      if exitSignals == 0 {
        report := Blocked;
        return;
      }
      exitSignals := exitSignals - 1;
      var message: Message;
      if users > 0 {
        users := Decrement(users);
        message := UserLeft;
      } else {
        message := NoUsers;
      }
      var shown := CountText(false, users as int, MaxUsers);
      ShowOccupancy();
      exitEnabled := true;
      report := Shown(message, shown, []);
    }

    /** One pass of the reset task's loop. */
    method ProcessReset() returns (report: Report)
      modifies this
      ensures Snapshot() == Controller.Reset(old(Snapshot())).state
      ensures report == Controller.Reset(old(Snapshot())).report
      ensures old(Valid()) ==> Valid()
    {
      if resetSignals == 0 {
        report := Blocked;
        return;
      }
      resetSignals := resetSignals - 1;
      users := 0;
      var shown := CountText(true, users as int, MaxUsers);
      blue := true;
      red := false;
      green := false;
      var buzzer: seq<bool> := [];
      buzzer := buzzer + [true];
      buzzer := buzzer + [false];
      buzzer := buzzer + [true];
      buzzer := buzzer + [false];
      resetEnabled := true;
      report := Shown(SystemReset, shown, buzzer);
    }
  }
}
