// The controllers that decide how many of the next 25 slots a boiler is to be heated in, over the
// reals.

module Heaters {

  const SLOTS := 25

  // round(), for what is not negative.
  function Round(x: real): (n: int)
    ensures n as real - 0.5 <= x < n as real + 0.5
  {
    (x + 0.5).Floor
  }

  function Clamp(x: real, low: real, high: real): (y: real)
    ensures low <= high ==> low <= y <= high && (y < x ==> y == high) && (x < y ==> y == low)
  {
    if x > high then high else if x < low then low else x
  }

  // The proportional, the integral and the derivative term.
  function PidSum(s: PidSettings, error: real, integral: real, derivative: real): real {
    s.kp * error + s.ki * integral + s.kd * derivative
  }

  datatype PidSettings = PidSettings(kp: real, ki: real, kd: real, windupLow: real, windupHigh: real)

  // What a PID controller keeps between two calls.
  datatype PidState = PidState(integral: real, signal: real, preError: real)

  // One step of a PID controller for an error, dT after the one before.
  function PidOn(s: PidSettings, was: PidState, error: real, dT: real): PidState
    requires dT > 0.0
  {
    var integral := Clamp(was.integral + error * dT, s.windupLow, s.windupHigh);
    var sum := PidSum(s, error, integral, (error - was.preError) / dT);
    PidState(integral, Output(sum), error)
  }

  function Output(x: real): real {
    Round(Clamp(x, 0.0, 10.0)) as real
  }

  // ... and at the process value pv.
  function PidStep(s: PidSettings, setPoint: real, was: PidState, pv: real, dT: real): PidState
    requires dT > 0.0
  {
    PidOn(s, was, setPoint - pv, dT)
  }

  // What each of the three terms makes of the sum alone.
  lemma TermsAlone(s: PidSettings, error: real, integral: real, derivative: real)
    ensures s.ki == s.kd == 0.0 ==> PidSum(s, error, integral, derivative) == s.kp * error
    ensures s.kp == s.kd == 0.0 ==> PidSum(s, error, integral, derivative) == s.ki * integral
    ensures s.kp == s.ki == 0.0 ==> PidSum(s, error, integral, derivative) == s.kd * derivative
  {
    NoTerm(s.kp, error);
    NoTerm(s.ki, integral);
    NoTerm(s.kd, derivative);
  }

  lemma NoTerm(k: real, x: real)
    ensures k == 0.0 ==> k * x == 0.0
  {
  }

  // The slots for the output of the PID controller and a feed-forward.
  function PidSlots(output: real, feedForward: real): int {
    Round(2.5 * Clamp(output + Clamp(feedForward, 0.0, 10.0), 0.0, 10.0))
  }

  // The scale from 0 to 10 is spread evenly over the slots.
  lemma SlotsOfOutput(output: real)
    ensures PidSlots(0.0, 0.0) == 0 && PidSlots(4.0, 2.0) == 15 && PidSlots(4.0, -1.0) == 10
    ensures 10.0 <= output ==> PidSlots(output, 0.0) == PidSlots(0.0, output) == SLOTS
  {
  }

  // At or above the upper bound the heater goes off, at or below the lower bound it comes on; in
  // between it stays as it was.
  class HysteresisController {
    const delta: real
    var lowerBound: real
    var upperBound: real
    var ascending: bool

    constructor (setPoint: real, delta: real)
      ensures ascending && lowerBound == setPoint - delta && upperBound == setPoint + delta && this.delta == delta
    {
      this.delta := delta;
      lowerBound, upperBound, ascending := setPoint - delta, setPoint + delta, true;
    }

    // Whether the heater is on once this temperature is seen, if it was on or not before.
    predicate IsOnAt(was: bool, value: real)
      reads this`lowerBound, this`upperBound
    {
      if was then value < upperBound else value <= lowerBound
    }

    ghost predicate IsSet(setPoint: real)
      reads this`lowerBound, this`upperBound
    {
      lowerBound == setPoint - delta && upperBound == setPoint + delta
    }

    // How many slots are wanted as of the last temperature seen.
    function Wanted(): nat
      reads this
    {
      if ascending then SLOTS else 0
    }

    method GetControlSignal(value: real) returns (signal: nat)
      modifies this`ascending
      ensures ascending == IsOnAt(old(ascending), value) && signal == Wanted()
      ensures lowerBound < upperBound ==>
        (ascending <==> value <= lowerBound || (value < upperBound && old(ascending)))
    {
      if ascending {
        if value < upperBound { return SLOTS; }
        ascending := false;
        return 0;
      }
      if value > lowerBound { return 0; }
      ascending := true;
      return SLOTS;
    }

    method UpdateSetPoint(setPoint: real)
      modifies this`lowerBound, this`upperBound
      ensures IsSet(setPoint) && setPoint - lowerBound == upperBound - setPoint == delta
    {
      lowerBound, upperBound := setPoint - delta, setPoint + delta;
    }
  }

  class PidController {
    var settings: PidSettings
    var setPoint: real
    var integral: real
    var pidSignal: real
    var preError: real

    constructor (settings: PidSettings, setPoint: real)
    {
      this.settings, this.setPoint := settings, setPoint;
      integral, pidSignal, preError := 0.0, 0.0, 0.0;
    }

    function State(): PidState
      reads this`integral, this`pidSignal, this`preError
    {
      PidState(integral, pidSignal, preError)
    }

    // The output is a whole number from 0 to 10 whatever the settings are, and the integral does
    // not wind up beyond them.
    method UpdatePidSignal(pv: real, dT: real)
      requires dT > 0.0
      modifies this`integral, this`pidSignal, this`preError
      ensures State() == PidStep(settings, setPoint, old(State()), pv, dT) && 0.0 <= pidSignal <= 10.0
      ensures settings.windupLow <= settings.windupHigh ==> settings.windupLow <= integral <= settings.windupHigh
    {
      hide PidOn;
      UpdateForError(setPoint - pv, dT);
    }

    method UpdateForError(error: real, dT: real)
      requires dT > 0.0
      modifies this`integral, this`pidSignal, this`preError
      ensures State() == PidOn(settings, old(State()), error, dT) && 0.0 <= pidSignal <= 10.0
      ensures integral == Clamp(old(integral) + error * dT, settings.windupLow, settings.windupHigh)
      ensures preError == error
      ensures pidSignal == Output(PidSum(settings, error, integral, (error - old(preError)) / dT))
      ensures settings.windupLow <= settings.windupHigh ==> settings.windupLow <= integral <= settings.windupHigh
    {
      integral := integral + error * dT;
      if integral > settings.windupHigh {
        integral := settings.windupHigh;
      } else if integral < settings.windupLow {
        integral := settings.windupLow;
      }
      var derivative := (error - preError) / dT;
      var output := settings.kp * error + settings.ki * integral + settings.kd * derivative;
      assert output == PidSum(settings, error, integral, derivative);
      preError := error;
      pidSignal := Limited(output);
    }

    // The output is cut to its limits and rounded.
    method Limited(sum: real) returns (signal: real)
      ensures signal == Output(sum) && 0.0 <= signal <= 10.0
    {
      var output := sum;
      if output > 10.0 {
        output := 10.0;
      } else if output < 0.0 {
        output := 0.0;
      }
      signal := Round(output) as real;
    }

    method GetControlSignal(pv: real, feedForward: real, dT: real) returns (signal: nat)
      requires dT > 0.0
      modifies this`integral, this`pidSignal, this`preError
      ensures signal <= SLOTS && signal == PidSlots(pidSignal, feedForward)
      ensures State() == PidStep(settings, setPoint, old(State()), pv, dT)
    {
      UpdatePidSignal(pv, dT);
      var f := feedForward;
      if f > 10.0 { f := 10.0; }
      if f < 0.0 { f := 0.0; }
      var unscaled := pidSignal + f;
      if unscaled > 10.0 { unscaled := 10.0; }
      signal := Round(unscaled * 2.5);
    }
  }

  datatype HybridState = HybridState(pid: PidState, heating: bool)

  // PID control near the set point, hysteresis elsewhere or when it is forced. Both controllers
  // follow the temperature all the time.
  class HybridController {
    const pid: PidController
    const hysteresis: HysteresisController
    const delta: real
    var lowerPidBound: real
    var upperPidBound: real

    constructor (setPoint: real, hybridDelta: real, settings: PidSettings, hysteresisDelta: real)
      ensures fresh(pid) && fresh(hysteresis)
    {
      pid := new PidController(settings, setPoint);
      hysteresis := new HysteresisController(setPoint, hysteresisDelta);
      delta := hybridDelta;
      lowerPidBound, upperPidBound := setPoint - hybridDelta, setPoint + hybridDelta;
    }

    function State(): HybridState
      reads pid`integral, pid`pidSignal, pid`preError, hysteresis`ascending
    {
      HybridState(pid.State(), hysteresis.ascending)
    }

    // The state once this temperature is seen.
    function Next(was: HybridState, value: real, dT: real): HybridState
      requires dT > 0.0
      reads pid`settings, pid`setPoint, hysteresis`lowerBound, hysteresis`upperBound
    {
      HybridState(PidStep(pid.settings, pid.setPoint, was.pid, value, dT), hysteresis.IsOnAt(was.heating, value))
    }

    ghost predicate IsSet(settings: PidSettings, setPoint: real)
      reads this, pid`settings, pid`setPoint, hysteresis`lowerBound, hysteresis`upperBound
    {
      && lowerPidBound == setPoint - delta && upperPidBound == setPoint + delta
      && pid.settings == settings && pid.setPoint == setPoint && hysteresis.IsSet(setPoint)
    }

    // How many slots are wanted as of the last temperature seen, if that was `value`.
    function Wanted(value: real, feedForward: real, forceHysteresis: bool): int
      reads this, pid, hysteresis
    {
      if !forceHysteresis && lowerPidBound < value < upperPidBound then PidSlots(pid.pidSignal, feedForward)
      else hysteresis.Wanted()
    }

    method GetControlSignal(value: real, feedForward: real, forceHysteresis: bool, dT: real) returns (signal: nat)
      requires dT > 0.0
      modifies pid`integral, pid`pidSignal, pid`preError, hysteresis`ascending
      ensures signal <= SLOTS && signal == Wanted(value, feedForward, forceHysteresis)
      ensures State() == Next(old(State()), value, dT)
      ensures signal == if !forceHysteresis && lowerPidBound < value && value < upperPidBound
                        then PidSlots(pid.pidSignal, feedForward)
                        else if hysteresis.ascending then SLOTS else 0
    {
      var hysteresisValue := hysteresis.GetControlSignal(value);
      var pidValue := pid.GetControlSignal(value, feedForward, dT);
      if !forceHysteresis && lowerPidBound < value < upperPidBound {
        return pidValue;
      }
      return hysteresisValue;
    }

    method UpdateSetPoint(setPoint: real)
      modifies this`lowerPidBound, this`upperPidBound, pid`setPoint, hysteresis`lowerBound, hysteresis`upperBound
      ensures IsSet(pid.settings, setPoint) && setPoint - lowerPidBound == upperPidBound - setPoint == delta
    {
      lowerPidBound, upperPidBound := setPoint - delta, setPoint + delta;
      hysteresis.UpdateSetPoint(setPoint);
      pid.setPoint := setPoint;
    }

    method SetPidParameters(settings: PidSettings)
      modifies pid`settings
      ensures pid.settings == settings
    {
      pid.settings := settings;
    }
  }
}
