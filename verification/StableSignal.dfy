/** The motor's "stable speed" counter, over any interleaving of speed changes
    and samples of the monitor, each taken as one step. */
module StableSignal {
  import opened Bytes

  datatype Event =
    | Change               // CMD_CHANGE_SPEED is executed
    | Sample(within: bool) // the monitor compares the average with the target

  /** The counter; it starts at five, which means "already signalled". */
  function StableCount(es: seq<Event>): (n: nat)
    ensures n <= 5
  {
    if es == [] then 5
    else
      var before, e := StableCount(es[..|es| - 1]), es[|es| - 1];
      if e == Change then 0
      else if e.within && before < 5 then before + 1
      else before
  }

  /** The last event makes the motor signal. */
  predicate Signals(es: seq<Event>) {
    es != [] && es[|es| - 1] == Sample(true) && StableCount(es[..|es| - 1]) == 4
  }

  function SignalCount(es: seq<Event>): nat {
    if es == [] then 0 else SignalCount(es[..|es| - 1]) + if Signals(es) then 1 else 0
  }

  /** One event more. */
  lemma {:induction false} OneMoreEvent(es: seq<Event>, e: Event)
    ensures StableCount(es + [e]) ==
            if e == Change then 0 else if e.within && StableCount(es) < 5 then StableCount(es) + 1 else StableCount(es)
    ensures Signals(es + [e]) <==> e == Sample(true) && StableCount(es) == 4
    ensures SignalCount(es + [e]) == SignalCount(es) + if Signals(es + [e]) then 1 else 0
  {
    assert (es + [e])[..|es|] == es;
  }

  predicate NoChange(es: seq<Event>) {
    forall k :: 0 <= k < |es| ==> es[k].Sample?
  }

  function InTolerance(es: seq<Event>): nat {
    if es == [] then 0
    else InTolerance(es[..|es| - 1]) + if es[|es| - 1] == Sample(true) then 1 else 0
  }

  lemma {:induction false} Snoc(pre: seq<Event>, es: seq<Event>)
    requires es != []
    ensures var n := |es| - 1;
      && (pre + [Change] + es)[..|pre| + 1 + n] == pre + [Change] + es[..n]
      && (pre + [Change] + es)[|pre| + 1 + n] == es[n]
  {}

  /** Before the first speed change nothing is signalled. */
  lemma {:induction false} SilentBeforeFirstChange(es: seq<Event>)
    requires NoChange(es)
    ensures StableCount(es) == 5 && SignalCount(es) == 0
  {
    if es != [] {
      SilentBeforeFirstChange(es[..|es| - 1]);
    }
  }

  /** After a change the counter counts samples in tolerance up to five,
      whatever came before. */
  lemma {:induction false} CountsSinceChange(pre: seq<Event>, es: seq<Event>)
    requires NoChange(es)
    ensures StableCount(pre + [Change] + es) == if InTolerance(es) < 5 then InTolerance(es) else 5
    decreases es
  {
    if es == [] {
      Unit(pre + [Change]);
      assert (pre + [Change])[..|pre|] == pre;
    } else {
      Snoc(pre, es);
      CountsSinceChange(pre, es[..|es| - 1]);
    }
  }

  /** The samples since the last change signal exactly at the fifth one in
      tolerance. */
  lemma {:induction false} SignalsAtTheFifth(pre: seq<Event>, es: seq<Event>)
    requires NoChange(es) && es != []
    ensures Signals(pre + [Change] + es) <==> es[|es| - 1] == Sample(true) && InTolerance(es) == 5
  {
    Snoc(pre, es);
    CountsSinceChange(pre, es[..|es| - 1]);
  }

  /** Between a change and the next one there is exactly one signal if at
      least five samples are in tolerance, and none otherwise. */
  lemma {:induction false} OncePerCommand(pre: seq<Event>, es: seq<Event>)
    requires NoChange(es)
    ensures SignalCount(pre + [Change] + es) == SignalCount(pre) + if InTolerance(es) >= 5 then 1 else 0
    decreases es
  {
    if es == [] {
      Unit(pre + [Change]);
      assert (pre + [Change])[..|pre|] == pre;
    } else {
      Snoc(pre, es);
      SignalsAtTheFifth(pre, es);
      OncePerCommand(pre, es[..|es| - 1]);
    }
  }
}
