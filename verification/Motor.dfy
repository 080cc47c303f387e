/** The command machine of the two motors: run flag, direction, closed loop, enable pins and pulse outputs. */
module Motor {

  const MICRO_STEPS := 400
  const JOG_PERIOD := 2_000_000
  const HALF_CIRC := 200
  const FULL_CIRC := 400
  const NANOS := 1_000_000_000

  /** One motor: its enable and direction pins and its pulse output with the period last set. */
  datatype Axis = Axis(enabled: bool, backward: bool, pulsing: bool, period: nat)

  /** What the pins show while a jog or a soft start waits. */
  datatype Hold = Hold(one: Axis, two: Axis, ms: nat)

  /** `clash` records whether both enable pins have been high at once, between any two pin writes, and `held` every wait
      of a jog or a soft start. */
  datatype Drive = Drive(run: bool, reverse: bool, closed: bool, one: Axis, two: Axis, speed: nat, clash: bool, held: seq<Hold>)

  datatype Event = Key(ch: char) | Pid(rpm: nat)

  /** The pulse period for a motor speed. */
  function PeriodOf(rpm: nat): nat {
    var hz := rpm * MICRO_STEPS / 60;
    NANOS / (if hz < 1 then 1 else hz)
  }

  /** The speed the soft start ramps to. */
  function TargetRpm(speed: nat): nat {
    var rpm := (speed as real * 60.0 / (3.14159 * 60.0)).Floor;
    if rpm < 30 then 30 else rpm
  }

  // ----- single writes

  function Enable(d: Drive, axis: int, high: bool): Drive {
    var u := if axis == 1 then d.(one := d.one.(enabled := high)) else d.(two := d.two.(enabled := high));
    u.(clash := d.clash || (u.one.enabled && u.two.enabled))
  }

  /** `motor_continuous_stop`: both branches end the same way. */
  function Stopped(d: Drive): Drive {
    d.(run := false, one := d.one.(pulsing := false), two := d.two.(pulsing := false))
  }

  /** `motor_set_direction`: forward raises pin 1 before it lowers pin 2. */
  function Directed(d: Drive, reverse: bool): Drive {
    var u := d.(one := d.one.(backward := reverse), two := d.two.(backward := reverse));
    Enable(Enable(u, 1, !reverse), 2, reverse)
  }

  /** `motor_set_speed_rpm_both` */
  function WithPeriod(d: Drive, p: nat): Drive {
    d.(one := d.one.(period := p), two := d.two.(period := p))
  }

  function Launched(d: Drive): Drive {
    if d.run then d
    else
      var u := Directed(d.(run := true), d.reverse);
      u.(one := u.one.(pulsing := true), two := u.two.(pulsing := true))
  }

  function Waited(d: Drive, ms: nat): Drive {
    d.(held := d.held + [Hold(d.one, d.two, ms)])
  }

  /** The speeds a soft start waits at, from `rpm` on. */
  function Ramp(rpm: nat, target: nat, step: nat): seq<nat>
    requires step > 0
    decreases target + step - rpm
  {
    if rpm > target then [] else [rpm] + Ramp(rpm + step, target, step)
  }

  /** The waits at these speeds. */
  function Waits(d: Drive, ramp: seq<nat>, ms: nat): seq<Hold> {
    seq(|ramp|, i requires 0 <= i < |ramp| => var u := Launched(WithPeriod(d, PeriodOf(ramp[i]))); Hold(u.one, u.two, ms))
  }

  /** `motor_accel`: a wait at each speed of the ramp, unless the target is not above the start, and then the target. */
  function Accelerated(d: Drive, start: nat, target: nat, step: nat, ms: nat): Drive
    requires step > 0
  {
    Launched(WithPeriod(d, PeriodOf(target))).(
      held := d.held + Waits(d, if start >= target then [] else Ramp(start, target, step), ms))
  }

  /** A jog sets its motor's direction, enables it alone, and sets the jog period. */
  function JogBegun(d: Drive, axis: int, backward: bool): Drive {
    if axis == 1 then
      var u := Enable(Enable(d.(one := d.one.(backward := backward)), 1, true), 2, false);
      u.(one := u.one.(period := JOG_PERIOD, pulsing := true))
    else
      var u := Enable(Enable(d.(two := d.two.(backward := backward)), 2, true), 1, false);
      u.(two := u.two.(period := JOG_PERIOD, pulsing := true))
  }

  /** How long a jog lasts, at 500 steps a second. */
  function JogTime(steps: nat): nat {
    var ms := steps * 1000 / 500;
    if ms < 20 then 20 else ms
  }

  function JogEnded(d: Drive, axis: int): Drive {
    var u := if axis == 1 then d.(one := d.one.(pulsing := false)) else d.(two := d.two.(pulsing := false));
    Enable(Enable(u, 1, false), 2, false)
  }

  /** `motor_move_steps` */
  function Jogged(d: Drive, axis: int, steps: nat, backward: bool): Drive {
    JogEnded(Waited(JogBegun(Stopped(d.(closed := false)), axis, backward), JogTime(steps)), axis)
  }

  /** What the character of a command asks for. */
  datatype Request = Halt | Follow | FollowBack | Jog(axis: int, steps: nat, backward: bool) | Speed(target: nat) | Test | Nothing

  function Decode(ch: char): Request {
    match ch
    case 'b' => Halt
    case 's' => Halt
    case 'u' => Follow
    case 'o' => FollowBack
    case 'h' => Jog(1, HALF_CIRC, false)
    case 'a' => Jog(1, FULL_CIRC, false)
    case 'y' => Jog(1, HALF_CIRC, true)
    case 'z' => Jog(1, FULL_CIRC, true)
    case 'd' => Jog(2, HALF_CIRC, false)
    case 'x' => Jog(2, FULL_CIRC, false)
    case 'p' => Jog(2, HALF_CIRC, true)
    case 'q' => Jog(2, FULL_CIRC, true)
    case 'w' => Speed(300)
    case 'm' => Speed(200)
    case 'l' => Speed(100)
    case 't' => Test
    case _ => Nothing
  }

  function Handle(d: Drive, r: Request): Drive {
    match r
    case Halt => Stopped(d.(closed := false))
    case Follow =>
      Accelerated(Directed(Stopped(d.(closed := false)).(reverse := false), false), 50, TargetRpm(d.speed), 5, 80).(closed := true)
    case FollowBack =>
      var u := Directed(Stopped(d).(closed := true, reverse := true), true);
      u.(two := u.two.(pulsing := true), one := u.one.(pulsing := false))
    case Jog(axis, steps, backward) => Jogged(d, axis, steps, backward)
    case Speed(target) => d.(speed := target)
    case Test => Accelerated(Directed(Stopped(d.(closed := false)).(reverse := false), false), 100, 200, 20, 50)
    case Nothing => d
  }

  /** One command, or one turn of the speed controller, which acts only in closed loop. */
  function React(d: Drive, e: Event): Drive {
    match e
    case Pid(rpm) =>
      if !d.closed then d
      else if !d.reverse then d.(one := d.one.(period := PeriodOf(rpm)))
      else d.(two := d.two.(period := PeriodOf(rpm)))
    case Key(ch) => Handle(d, Decode(ch))
  }

  // ----- what holds after every command

  /** The motor the direction flag selects. */
  function Selected(d: Drive): Axis {
    if d.reverse then d.two else d.one
  }

  function Other(d: Drive): Axis {
    if d.reverse then d.one else d.two
  }

  ghost predicate Safe(d: Drive) {
    !(d.one.enabled && d.two.enabled) &&
    (d.closed ==> Selected(d).enabled && Selected(d).pulsing) &&
    (!d.run && !d.closed ==> !d.one.pulsing && !d.two.pulsing)
  }

  lemma ReactKeeps(d: Drive, e: Event)
    requires Safe(d)
    ensures Safe(React(d, e))
  {
    hide PeriodOf, TargetRpm, Decode, Handle;
    match e {
      case Pid(rpm) =>
      case Key(ch) => HandleKeeps(d, Decode(ch));
    }
  }

  lemma HandleKeeps(d: Drive, r: Request)
    requires Safe(d)
    ensures Safe(Handle(d, r))
  {
    hide PeriodOf, TargetRpm, Jogged, Directed, Accelerated, Enable;
    match r {
      case Follow => StartForward(d, 50, TargetRpm(d.speed), 5, 80);
      case Test => StartForward(d, 100, 200, 20, 50);
      case FollowBack => DirectedPins(Stopped(d).(closed := true, reverse := true), true);
      case Jog(axis, steps, backward) => JoggedPins(d, axis, steps, backward);
      case _ =>
    }
  }

  /** Setting the direction enables exactly the motor it selects; forward, both pins are high for a moment if pin 2 was. */
  lemma DirectedPins(d: Drive, reverse: bool)
    ensures var u := Directed(d, reverse);
            u.clash == (d.clash || (!reverse && d.two.enabled)) &&
            u.run == d.run && u.closed == d.closed && u.reverse == d.reverse && u.speed == d.speed &&
            u.one == Axis(!reverse, reverse, d.one.pulsing, d.one.period) && u.held == d.held &&
            u.two == Axis(reverse, reverse, d.two.pulsing, d.two.period)
  {
  }

  /** Starting forward from a stop: motor 1 alone is enabled, both outputs pulse, and each speed of the ramp is held. */
  lemma StartForward(d: Drive, start: nat, target: nat, step: nat, ms: nat)
    requires step > 0
    ensures var u := Accelerated(Directed(Stopped(d.(closed := false)).(reverse := false), false), start, target, step, ms);
            u.run && !u.reverse && !u.closed && u.speed == d.speed && u.clash == (d.clash || d.two.enabled) &&
            Forward(u.one, u.two, PeriodOf(target)) &&
            Held(d.held, u.held, if start >= target then [] else Ramp(start, target, step), ms)
  {
    hide Directed, PeriodOf, Ramp;
    var s := Stopped(d.(closed := false)).(reverse := false);
    DirectedPins(s, false);
    var v := Directed(s, false);
    forall p ensures var u := Launched(WithPeriod(v, p)); Forward(u.one, u.two, p) && u.clash == (d.clash || d.two.enabled) {
      DirectedPins(WithPeriod(v, p).(run := true), false);
    }
    DirectedPins(WithPeriod(v, PeriodOf(target)).(run := true), false);
    hide Launched;
  }

  /** Motor 1 alone is enabled, both directions are forward, and both outputs pulse with this period. */
  predicate Forward(one: Axis, two: Axis, period: nat) {
    one == Axis(true, false, true, period) && two == Axis(false, false, true, period)
  }

  /** What a soft start adds to the waits. */
  ghost predicate Held(before: seq<Hold>, after: seq<Hold>, ramp: seq<nat>, ms: nat) {
    && |after| == |before| + |ramp| && after[..|before|] == before
    && forall i :: 0 <= i < |ramp| ==>
         var h := after[|before| + i]; Forward(h.one, h.two, PeriodOf(ramp[i])) && h.ms == ms
  }

  lemma JoggedPins(d: Drive, axis: int, steps: nat, backward: bool)
    ensures var u := Jogged(d, axis, steps, backward);
            !u.one.enabled && !u.two.enabled && !u.one.pulsing && !u.two.pulsing && !u.run && !u.closed &&
            u.clash == (d.clash || (if axis == 1 then d.two.enabled else d.one.enabled) || (d.one.enabled && d.two.enabled)) &&
            (if axis == 1 then u.one else u.two).period == JOG_PERIOD
  {
  }

  function Run(d: Drive, events: seq<Event>): Drive
    decreases |events|
  {
    if events == [] then d else Run(React(d, events[0]), events[1..])
  }

  /** Over every string of commands, with speed corrections at any point between them. */
  lemma {:induction false} RunKeeps(d: Drive, events: seq<Event>)
    requires Safe(d)
    ensures Safe(Run(d, events))
    decreases |events|
  {
    hide React, Safe;
    if events != [] {
      ReactKeeps(d, events[0]);
      RunKeeps(React(d, events[0]), events[1..]);
    }
  }

  /** A speed correction acts in closed loop only, and there on nothing but the period of the one enabled motor. */
  lemma PidDrivesTheEnabled(d: Drive, rpm: nat)
    requires Safe(d)
    ensures var t := React(d, Pid(rpm));
            t != d ==> d.closed && !Other(d).enabled && Selected(d).enabled && Selected(d).pulsing
    ensures var t := React(d, Pid(rpm));
            d.closed ==> t == if d.one.enabled then d.(one := d.one.(period := PeriodOf(rpm)))
                              else d.(two := d.two.(period := PeriodOf(rpm)))
  {
  }

  // ----- what each command does, at the pins

  /** `s`, and `b`, which also starts the detection: nothing runs, nothing pulses, and nothing else changes. */
  lemma StopCommands(d: Drive, ch: char)
    requires ch == 's' || ch == 'b'
    ensures var t := React(d, Key(ch));
            !t.run && !t.closed && !t.one.pulsing && !t.two.pulsing &&
            t == d.(run := false, closed := false, one := t.one, two := t.two) &&
            t.one == d.one.(pulsing := false) && t.two == d.two.(pulsing := false)
  {
  }

  /** `u`: forward in closed loop at the target speed, after a soft start from 50 rpm in steps of 5. */
  lemma ForwardCommand(d: Drive)
    ensures var t := React(d, Key('u'));
            var rpm := TargetRpm(d.speed);
            t.run && t.closed && !t.reverse && t.speed == d.speed && Forward(t.one, t.two, PeriodOf(rpm)) &&
            Held(d.held, t.held, if rpm <= 50 then [] else Ramp(50, rpm, 5), 80)
  {
    hide PeriodOf, TargetRpm, Ramp, Accelerated, Directed, Held;
    StartForward(d, 50, TargetRpm(d.speed), 5, 80);
  }

  /** `t`: forward in open loop at 200 rpm, after a soft start from 100 rpm in steps of 20. */
  lemma TestCommand(d: Drive)
    ensures var t := React(d, Key('t'));
            t.run && !t.closed && !t.reverse && t.speed == d.speed && Forward(t.one, t.two, PeriodOf(200)) &&
            Held(d.held, t.held, [100, 120, 140, 160, 180, 200], 50)
  {
    hide PeriodOf, Ramp, Accelerated, Directed, Held;
    StartForward(d, 100, 200, 20, 50);
    RampOfTest();
  }

  lemma RampOfTest()
    ensures Ramp(100, 200, 20) == [100, 120, 140, 160, 180, 200]
  {
    assert Ramp(180, 200, 20) == [180, 200];
    assert Ramp(140, 200, 20) == [140, 160, 180, 200];
  }

  /** The speeds of a soft start: `step` apart, none above the target, and none left out below it. */
  lemma {:induction false} RampSpeeds(start: nat, target: nat, step: nat, i: nat)
    requires step > 0 && i < |Ramp(start, target, step)|
    ensures Ramp(start, target, step)[i] == start + i * step <= target < start + |Ramp(start, target, step)| * step
    decreases target + step - start
  {
    var rest := Ramp(start + step, target, step);
    assert |Ramp(start, target, step)| == |rest| + 1;
    assert (|rest| + 1) * step == |rest| * step + step;
    if rest != [] {
      RampSpeeds(start + step, target, step, if i == 0 then 0 else i - 1);
      assert i > 0 ==> (i - 1) * step + step == i * step;
    }
  }

  /** `o`: backward in closed loop, motor 2 alone enabled and pulsing, at the period it had. */
  lemma BackwardCommand(d: Drive)
    ensures var t := React(d, Key('o'));
            !t.run && t.closed && t.reverse && t.speed == d.speed && t.held == d.held &&
            t.one == Axis(false, true, false, d.one.period) && t.two == Axis(true, true, true, d.two.period)
  {
  }

  /** The eight jog keys with the motor, the steps and the direction of each. */
  predicate JogKey(ch: char, axis: int, steps: nat, backward: bool) {
    (ch, axis, steps, backward) in {
      ('h', 1, 200, false), ('a', 1, 400, false), ('y', 1, 200, true), ('z', 1, 400, true),
      ('d', 2, 200, false), ('x', 2, 400, false), ('p', 2, 200, true), ('q', 2, 400, true)
    }
  }

  /** A jog: for two milliseconds a step its motor alone is enabled and pulsing, in its direction; then all is off. */
  lemma JogCommand(d: Drive, ch: char, axis: int, steps: nat, backward: bool)
    requires JogKey(ch, axis, steps, backward)
    ensures var t := React(d, Key(ch));
            !t.run && !t.closed && t.reverse == d.reverse && t.speed == d.speed &&
            !t.one.enabled && !t.two.enabled && !t.one.pulsing && !t.two.pulsing
    ensures var t := React(d, Key(ch));
            var moving := Axis(true, backward, true, 2_000_000);
            t.held == d.held + [if axis == 1 then Hold(moving, d.two.(enabled := false, pulsing := false), 2 * steps)
                                else Hold(d.one.(enabled := false, pulsing := false), moving, 2 * steps)]
  {
    hide Jogged;
    JogDecoded(ch, axis, steps, backward);
    JogHeld(d, axis, steps, backward);
    JoggedPins(d, axis, steps, backward);
  }

  lemma JogDecoded(ch: char, axis: int, steps: nat, backward: bool)
    requires JogKey(ch, axis, steps, backward)
    ensures Decode(ch) == Jog(axis, steps, backward) && (axis == 1 || axis == 2) && steps >= 200
  {
  }

  lemma JogHeld(d: Drive, axis: int, steps: nat, backward: bool)
    requires steps >= 10
    ensures var t := Jogged(d, axis, steps, backward);
            var moving := Axis(true, backward, true, 2_000_000);
            t.reverse == d.reverse && t.speed == d.speed &&
            t.held == d.held + [if axis == 1 then Hold(moving, d.two.(enabled := false, pulsing := false), 2 * steps)
                                else Hold(d.one.(enabled := false, pulsing := false), moving, 2 * steps)]
  {
    assert JogTime(steps) == 2 * steps;
  }

  /** The speed keys and all other characters: the speed aimed at is set, or nothing happens at all. */
  lemma OtherCommands(d: Drive, ch: char)
    requires ch !in "bsuohayzdxpqt"
    ensures React(d, Key(ch)) == if ch == 'w' then d.(speed := 300) else if ch == 'm' then d.(speed := 200)
                                 else if ch == 'l' then d.(speed := 100) else d
  {
    hide Accelerated, Directed, Jogged, PeriodOf, TargetRpm, Stopped;
    assert Decode(ch) == if ch == 'w' then Speed(300) else if ch == 'm' then Speed(200)
                         else if ch == 'l' then Speed(100) else Nothing;
    hide Decode;
  }

  /** What the three speeds come to: revolutions a minute and nanoseconds a pulse. */
  lemma SpeedLevels()
    ensures TargetRpm(300) == 95 && PeriodOf(95) == 1_579_778
    ensures TargetRpm(200) == 63 && PeriodOf(63) == 2_380_952
    ensures TargetRpm(100) == 31 && PeriodOf(31) == 4_854_368
  {
  }

  // ----- between the writes

  /** Inside a command both enable pins are high for a moment exactly when the command raises one pin while the other
      is still high: going forward or jogging motor 1 after motor 2 was enabled, jogging motor 2 after motor 1 was;
      going backward never. */
  lemma ClashExactly(d: Drive, e: Event)
    requires Safe(d) && !d.clash
    ensures React(d, e).clash <==>
            e.Key? && ((e.ch in "uthayz" && d.two.enabled) || (e.ch in "dxpq" && d.one.enabled))
  {
    hide PeriodOf, TargetRpm, Decode, Handle;
    match e {
      case Pid(rpm) =>
      case Key(ch) =>
        ClashOf(d, Decode(ch));
        Decoded(ch);
    }
  }

  lemma ClashOf(d: Drive, r: Request)
    requires Safe(d) && !d.clash
    ensures Handle(d, r).clash <==>
            match r
            case Follow => d.two.enabled
            case Test => d.two.enabled
            case Jog(axis, _, _) => if axis == 1 then d.two.enabled else d.one.enabled
            case _ => false
  {
    hide PeriodOf, TargetRpm, Jogged, Directed, Accelerated, Enable;
    match r {
      case Follow => StartForward(d, 50, TargetRpm(d.speed), 5, 80);
      case Test => StartForward(d, 100, 200, 20, 50);
      case FollowBack => DirectedPins(Stopped(d).(closed := true, reverse := true), true);
      case Jog(axis, steps, backward) => JoggedPins(d, axis, steps, backward);
      case _ =>
    }
  }

  lemma Decoded(ch: char)
    ensures Decode(ch).Follow? || Decode(ch).Test? <==> ch in "ut"
    ensures Decode(ch).Jog? && Decode(ch).axis == 1 <==> ch in "hayz"
    ensures Decode(ch).Jog? && Decode(ch).axis != 1 <==> ch in "dxpq"
  {
  }

  /** A jog leaves its own pulse period behind: the call meant to restore it does nothing while the motors are stopped. */
  lemma JogKeepsItsPeriod(d: Drive, ch: char, axis: int, steps: nat, backward: bool)
    requires JogKey(ch, axis, steps, backward)
    ensures var t := React(d, Key(ch)); (if axis == 1 then t.one else t.two).period == 2_000_000 && !t.run && !t.closed
  {
    hide Jogged;
    JogDecoded(ch, axis, steps, backward);
    JoggedPins(d, axis, steps, backward);
  }

  // ----- the controller

  /** Changing the period does not undo a start. */
  lemma SpeedAfter(d: Drive, p: nat, q: nat, held: seq<Hold>)
    ensures WithPeriod(Launched(WithPeriod(d, p)).(held := held), q) == Launched(WithPeriod(d, q)).(held := held)
  {
  }

  lemma NothingHeld(d: Drive, target: nat, ms: nat)
    ensures Launched(WithPeriod(d, PeriodOf(target))) == Launched(WithPeriod(d, PeriodOf(target))).(held := d.held + Waits(d, [], ms))
  {
  }

  /** One more wait of a soft start. */
  lemma HeldNext(d: Drive, ramp: seq<nat>, rpm: nat, ms: nat)
    ensures var u := Launched(WithPeriod(d, PeriodOf(rpm)));
            Waited(u.(held := d.held + Waits(d, ramp, ms)), ms) == u.(held := d.held + Waits(d, ramp + [rpm], ms)) &&
            Waits(d, [], ms) == [] && u.held == d.held
  {
    hide PeriodOf;
    var u := Launched(WithPeriod(d, PeriodOf(rpm)));
    assert Waits(d, ramp + [rpm], ms) == Waits(d, ramp, ms) + [Hold(u.one, u.two, ms)];
  }

  class Controller {
    var run: bool
    var reverse: bool
    var closed: bool
    var speed: nat
    var one: Axis
    var two: Axis
    ghost var clash: bool
    ghost var held: seq<Hold>

    ghost function Abs(): Drive
      reads this
    {
      Drive(run, reverse, closed, one, two, speed, clash, held)
    }

    /** After `motor_hw_init`. */
    constructor ()
      ensures Safe(Abs()) && !run && !closed && !clash && held == []
    {
      run := false;
      reverse := false;
      closed := false;
      speed := 200;
      one := Axis(false, false, false, 0);
      two := Axis(false, false, false, 0);
      clash := false;
      held := [];
    }

    method WriteEnable(axis: int, high: bool)
      modifies this`one, this`two, this`clash
      ensures Abs() == Enable(old(Abs()), axis, high)
    {
      if axis == 1 {
        one := one.(enabled := high);
      } else {
        two := two.(enabled := high);
      }
      clash := clash || (one.enabled && two.enabled);
    }

    method Stop()
      modifies this
      ensures Abs() == Stopped(old(Abs()))
    {
      if run {
        run := false;
        one := one.(pulsing := false);
        two := two.(pulsing := false);
      } else {
        one := one.(pulsing := false);
        two := two.(pulsing := false);
      }
    }

    method SetDirection(backward: bool)
      modifies this
      ensures Abs() == Directed(old(Abs()), backward)
    {
      one := one.(backward := backward);
      two := two.(backward := backward);
      if !backward {
        WriteEnable(1, true);
        WriteEnable(2, false);
      } else {
        WriteEnable(1, false);
        WriteEnable(2, true);
      }
    }

    method SetSpeedBoth(rpm: nat)
      modifies this`one, this`two
      ensures Abs() == WithPeriod(old(Abs()), PeriodOf(rpm))
    {
      one := one.(period := PeriodOf(rpm));
      two := two.(period := PeriodOf(rpm));
    }

    /** The start of a run: direction and both pulse outputs. */
    method Launch()
      modifies this
      ensures Abs() == Launched(old(Abs()))
    {
      if !run {
        run := true;
        SetDirection(reverse);
        one := one.(pulsing := true);
        two := two.(pulsing := true);
      }
    }

    /** The thread sleeps with the pins as they are. */
    method Wait(ms: nat)
      modifies this`held
      ensures Abs() == Waited(old(Abs()), ms)
    {
      held := held + [Hold(one, two, ms)];
    }

    /** `motor_accel` */
    method Accelerate(start: nat, target: nat, step: nat, ms: nat)
      requires step > 0
      modifies this
      ensures Abs() == Accelerated(old(Abs()), start, target, step, ms)
    {
      hide WithPeriod, Launched, PeriodOf;
      ghost var d := Abs();
      ghost var ramp: seq<nat> := [];
      if start >= target {
        SetSpeedBoth(target);
        Launch();
        NothingHeld(d, target, ms);
        return;
      }
      SetSpeedBoth(start);
      Launch();
      HeldNext(d, ramp, start, ms);
      Wait(ms);
      ramp := [start];
      var rpm := start + step;
      while rpm <= target
        invariant start < rpm <= target + step && ramp != [] && ramp + Ramp(rpm, target, step) == Ramp(start, target, step)
        invariant Abs() == Launched(WithPeriod(d, PeriodOf(ramp[|ramp| - 1]))).(held := d.held + Waits(d, ramp, ms))
        decreases target + step - rpm
      {
        ghost var last := ramp[|ramp| - 1];
        SpeedAfter(d, PeriodOf(last), PeriodOf(rpm), held);
        SetSpeedBoth(rpm);
        HeldNext(d, ramp, rpm, ms);
        Wait(ms);
        ramp := ramp + [rpm];
        rpm := rpm + step;
      }
      SpeedAfter(d, PeriodOf(ramp[|ramp| - 1]), PeriodOf(target), held);
      SetSpeedBoth(target);
      assert ramp == Ramp(start, target, step);
    }

    method BeginJog(axis: int, backward: bool)
      modifies this
      ensures Abs() == JogBegun(old(Abs()), axis, backward)
    {
      hide Enable;
      if axis == 1 {
        one := one.(backward := backward);
        WriteEnable(1, true);
        WriteEnable(2, false);
        one := one.(period := JOG_PERIOD, pulsing := true);
      } else {
        two := two.(backward := backward);
        WriteEnable(2, true);
        WriteEnable(1, false);
        two := two.(period := JOG_PERIOD, pulsing := true);
      }
    }

    method EndJog(axis: int)
      modifies this
      ensures Abs() == JogEnded(old(Abs()), axis)
    {
      hide Enable;
      if axis == 1 {
        one := one.(pulsing := false);
      } else {
        two := two.(pulsing := false);
      }
      WriteEnable(1, false);
      WriteEnable(2, false);
    }

    /** `motor_move_steps` */
    method MoveSteps(axis: int, steps: nat, backward: bool)
      modifies this
      ensures Abs() == Jogged(old(Abs()), axis, steps, backward)
    {
      hide JogBegun, JogEnded;
      if closed {
        closed := false;
        Stop();
      }
      Stop();
      BeginJog(axis, backward);
      Wait(JogTime(steps));
      EndJog(axis);
    }

    /** The common part of `u` and `t`: stop, turn forward, ramp up. */
    method SoftStart(start: nat, target: nat, step: nat, ms: nat)
      requires step > 0
      modifies this
      ensures var u := Directed(Stopped(old(Abs()).(closed := false)).(reverse := false), false);
              Abs() == Accelerated(u, start, target, step, ms)
    {
      hide Accelerated, Directed;
      closed := false;
      Stop();
      reverse := false;
      SetDirection(false);
      Accelerate(start, target, step, ms);
    }

    /** The body of the command switch. */
    method OnKey(ch: char)
      modifies this
      ensures Abs() == React(old(Abs()), Key(ch))
      ensures old(Safe(Abs())) ==> Safe(Abs())
    {
      hide Accelerated, Directed, Jogged, TargetRpm, Safe, Decode;
      if Safe(Abs()) {
        ReactKeeps(Abs(), Key(ch));
      }
      match Decode(ch) {
        case Halt =>
          closed := false;
          Stop();
        case Follow =>
          SoftStart(50, TargetRpm(speed), 5, 80);
          closed := true;
        case FollowBack =>
          Stop();
          closed := true;
          reverse := true;
          SetDirection(true);
          two := two.(pulsing := true);
          one := one.(pulsing := false);
        case Jog(axis, steps, backward) => MoveSteps(axis, steps, backward);
        case Speed(target) => speed := target;
        case Test =>
          SoftStart(100, 200, 20, 50);
        case Nothing =>
      }
    }

    /** `motor_set_active_speed_rpm`, as the speed controller calls it in closed loop. */
    method OnCorrection(rpm: nat)
      modifies this`one, this`two
      ensures Abs() == React(old(Abs()), Pid(rpm))
    {
      if closed {
        if !reverse {
          one := one.(period := PeriodOf(rpm));
        } else {
          two := two.(period := PeriodOf(rpm));
        }
      }
    }

    /** Every string of commands and corrections leaves the motors safe. */
    method OnAll(events: seq<Event>)
      requires Safe(Abs())
      modifies this
      ensures Abs() == Run(old(Abs()), events) && Safe(Abs())
    {
      hide React, Safe, Abs;
      var i := 0;
      assert events[0..] == events;
      while i < |events|
        invariant 0 <= i <= |events| && Run(Abs(), events[i..]) == Run(old(Abs()), events) && Safe(Abs())
      {
        assert events[i..][1..] == events[i + 1..];
        ReactKeeps(Abs(), events[i]);
        match events[i] {
          case Key(ch) => OnKey(ch);
          case Pid(rpm) => OnCorrection(rpm);
        }
        i := i + 1;
      }
    }
  }
}
