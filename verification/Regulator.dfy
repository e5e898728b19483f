/** The speed regulator of the motor: a proportional and an integral term, one
    step per pass of the monitor. */
module Regulators {
  const PWM_MIN: real := 8000.0
  const KP: real := 0.49
  const KI: real := 2.93
  const DT: real := 0.1

  datatype Regulator = Regulator(error: real, proportional: real, integral: real, command: real)

  /** At the start, and after a stop. */
  const AT_REST: Regulator := Regulator(0.0, 0.0, PWM_MIN, PWM_MIN)

  /** From rest, the first command is 8000 and 0.49 times the error. */
  lemma {:induction false} FromRest(vref: real, rpm: nat)
    ensures Regulated(AT_REST, vref, rpm).command == 8000.0 + 0.49 * (vref - rpm as real)
  {}

  function Regulated(g: Regulator, vref: real, rpm: nat): Regulator {
    var error := vref - rpm as real;
    Regulator(error, KP * error, g.integral + KI * DT * error, KP * error + g.integral)
  }

  function AllRegulated(g: Regulator, vref: real, rpms: seq<nat>): Regulator {
    if rpms == [] then g else Regulated(AllRegulated(g, vref, rpms[..|rpms| - 1]), vref, rpms[|rpms| - 1])
  }

  /** The errors added up. */
  function Shortfall(vref: real, rpms: seq<nat>): real {
    if rpms == [] then 0.0 else Shortfall(vref, rpms[..|rpms| - 1]) + (vref - rpms[|rpms| - 1] as real)
  }

  /** The integral term keeps account of the whole way. */
  lemma {:induction false} IntegralKeepsAccount(g: Regulator, vref: real, rpms: seq<nat>)
    ensures AllRegulated(g, vref, rpms).integral == g.integral + KI * DT * Shortfall(vref, rpms)
  {
    if rpms != [] {
      IntegralKeepsAccount(g, vref, rpms[..|rpms| - 1]);
    }
  }

  /** The regulator, over any passes: the command is the integral term of the
      beginning, plus 0.293 times the errors of all passes but the last, plus
      0.49 times the last one. */
  lemma {:induction false} CommandIs(g: Regulator, vref: real, rpms: seq<nat>, rpm: nat)
    ensures AllRegulated(g, vref, rpms + [rpm]).command ==
            g.integral + 0.293 * Shortfall(vref, rpms) + 0.49 * (vref - rpm as real)
  {
    assert (rpms + [rpm])[..|rpms|] == rpms;
    IntegralKeepsAccount(g, vref, rpms);
  }

  /** Hence, when the last speed is the target, the command is the integral term
      of the beginning if and only if the errors cancel. */
  lemma {:induction false} CommandRestoredIff(g: Regulator, vref: real, rpms: seq<nat>)
    requires rpms != [] && rpms[|rpms| - 1] as real == vref
    ensures AllRegulated(g, vref, rpms).command == g.integral <==> Shortfall(vref, rpms) == 0.0
  {
    IntegralKeepsAccount(g, vref, rpms[..|rpms| - 1]);
  }
}
