/**
 * Pulse Propagation (2023, day 20): flip-flops, conjunctions and a
 * broadcaster pass low (0) and high (1) pulses along their targets; each
 * button press sends one low pulse to the broadcaster and the pulses are
 * handled first in, first out while the machine counts lows and highs.
 */
module PulsePropagation {

  type Signal = s: nat | s <= 1

  datatype SignalDetails = SignalDetails(source: string, target: string, signal: Signal)

  /**
   * A module and its own state: whether a flip-flop is on, and the last
   * pulse a conjunction had from each of its inputs.
   */
  datatype Module =
    | FlipFlop(name: string, targets: seq<string>, isOn: bool)
    | Conjunction(name: string, targets: seq<string>, lastSignal: map<string, Signal>)
    | Broadcaster(name: string, targets: seq<string>)

  /** One pulse from `source` to every target, in the order of the targets. */
  function Send(source: string, targets: seq<string>, signal: Signal): (out: seq<SignalDetails>)
    ensures |out| == |targets|
    ensures forall i | 0 <= i < |out| :: out[i] == SignalDetails(source, targets[i], signal)
  {
    seq(|targets|, i requires 0 <= i < |targets| => SignalDetails(source, targets[i], signal))
  }

  /** `setInputs`: every input starts at a low pulse. */
  function InitialMemory(names: seq<string>): (memory: map<string, Signal>)
    ensures forall n :: n in memory <==> n in names
    ensures forall n | n in memory :: memory[n] == 0
  {
    map n | n in names :: 0
  }

  predicate AllHigh(memory: map<string, Signal>)
  {
    forall n | n in memory :: memory[n] == 1
  }

  /** `recieveSignal` of each kind of module: the module afterwards and the pulses it sends. */
  function Receive(m: Module, d: SignalDetails): (Module, seq<SignalDetails>)
  {
    match m
    case FlipFlop(name, targets, isOn) =>
      if d.signal == 0 then (m.(isOn := !isOn), Send(name, targets, if !isOn then 1 else 0))
      else (m, [])
    case Conjunction(name, targets, lastSignal) =>
      var memory := lastSignal[d.source := d.signal];
      (m.(lastSignal := memory), Send(name, targets, if AllHigh(memory) then 0 else 1))
    case Broadcaster(name, targets) =>
      (m, Send("broadcaster", targets, d.signal))
  }

  /** A flip-flop ignores a high pulse: it stays as it is and sends nothing. */
  lemma FlipFlopIgnoresHigh(m: Module, d: SignalDetails)
    requires m.FlipFlop? && d.signal == 1
    ensures Receive(m, d) == (m, [])
  {
  }

  /** On a low pulse a flip-flop switches, and sends high to every target exactly when it is now on. */
  lemma FlipFlopToggles(m: Module, d: SignalDetails)
    requires m.FlipFlop? && d.signal == 0
    ensures Receive(m, d).0 == m.(isOn := !m.isOn)
    ensures |Receive(m, d).1| == |m.targets|
    ensures forall i | 0 <= i < |m.targets| ::
      Receive(m, d).1[i].target == m.targets[i] && Receive(m, d).1[i].source == m.name &&
      (Receive(m, d).1[i].signal == 1 <==> Receive(m, d).0.isOn)
  {
  }

  /** Two low pulses bring a flip-flop back to its state. */
  lemma FlipFlopTwoLows(m: Module, d: SignalDetails, e: SignalDetails)
    requires m.FlipFlop? && d.signal == 0 && e.signal == 0
    ensures Receive(Receive(m, d).0, e).0 == m
  {
  }

  /**
   * A conjunction remembers the pulse from its source and sends low to
   * every target exactly when every remembered pulse is high.
   */
  lemma ConjunctionRemembers(m: Module, d: SignalDetails)
    requires m.Conjunction?
    ensures Receive(m, d).0.Conjunction? && Receive(m, d).0.lastSignal[d.source] == d.signal
    ensures forall n | n in m.lastSignal && n != d.source :: Receive(m, d).0.lastSignal[n] == m.lastSignal[n]
    ensures |Receive(m, d).1| == |m.targets|
    ensures forall i | 0 <= i < |m.targets| ::
      Receive(m, d).1[i].target == m.targets[i] &&
      (Receive(m, d).1[i].signal == 0 <==> forall n | n in Receive(m, d).0.lastSignal :: Receive(m, d).0.lastSignal[n] == 1)
  {
  }

  /** A conjunction whose only input is the source inverts the pulse. */
  lemma ConjunctionSingleInput(m: Module, d: SignalDetails)
    requires m.Conjunction? && m.lastSignal.Keys == {d.source}
    ensures forall i | 0 <= i < |m.targets| :: Receive(m, d).1[i].signal == 1 - d.signal
  {
    var memory := m.lastSignal[d.source := d.signal];
    assert memory.Keys == {d.source};
    assert AllHigh(memory) <==> d.signal == 1;
  }

  /** The broadcaster passes the pulse on unchanged, from "broadcaster", to every target, and keeps no state. */
  lemma BroadcasterForwards(m: Module, d: SignalDetails)
    requires m.Broadcaster?
    ensures Receive(m, d).0 == m
    ensures |Receive(m, d).1| == |m.targets|
    ensures forall i | 0 <= i < |m.targets| ::
      Receive(m, d).1[i] == SignalDetails("broadcaster", m.targets[i], d.signal)
  {
  }

  /** `signalCounts`: lows at index 0, highs at index 1. */
  datatype Counts = Counts(lows: nat, highs: nat)

  function Tally(c: Counts, s: Signal): Counts
  {
    if s == 0 then c.(lows := c.lows + 1) else c.(highs := c.highs + 1)
  }

  /** `this._modules[target]?.recieveSignal(details) ?? []`: a target that is no module swallows the pulse. */
  function Deliver(modules: map<string, Module>, d: SignalDetails): (map<string, Module>, seq<SignalDetails>)
  {
    if d.target in modules then
      var (m, out) := Receive(modules[d.target], d);
      (modules[d.target := m], out)
    else (modules, [])
  }

  /** Where a run of the queue stops: the modules, the counts, the fuel left and whether the queue emptied. */
  datatype RunResult = RunResult(modules: map<string, Module>, counts: Counts, fuel: nat, done: bool)

  /** The pulses of the queue handled first in, first out, at most `fuel` of them. */
  function Run(modules: map<string, Module>, queue: seq<SignalDetails>, counts: Counts, fuel: nat): (r: RunResult)
    ensures r.fuel <= fuel
    decreases fuel
  {
    if queue == [] then RunResult(modules, counts, fuel, true)
    else if fuel == 0 then RunResult(modules, counts, 0, false)
    else
      var d := queue[0];
      var (modules', out) := Deliver(modules, d);
      Run(modules', queue[1..] + out, Tally(counts, d.signal), fuel - 1)
  }

  /** Every handled pulse is counted once: the counts grow by the fuel the run used. */
  lemma {:induction false} RunCountsEveryPulse(modules: map<string, Module>, queue: seq<SignalDetails>, counts: Counts, fuel: nat)
    ensures var r := Run(modules, queue, counts, fuel);
      r.counts.lows + r.counts.highs == counts.lows + counts.highs + (fuel - r.fuel)
    decreases fuel
  {
    if queue != [] && fuel > 0 {
      var d := queue[0];
      var (modules', out) := Deliver(modules, d);
      RunCountsEveryPulse(modules', queue[1..] + out, Tally(counts, d.signal), fuel - 1);
    }
  }

  /** Counts only grow. */
  lemma {:induction false} RunCountsGrow(modules: map<string, Module>, queue: seq<SignalDetails>, counts: Counts, fuel: nat)
    ensures Run(modules, queue, counts, fuel).counts.lows >= counts.lows
    ensures Run(modules, queue, counts, fuel).counts.highs >= counts.highs
    decreases fuel
  {
    if queue != [] && fuel > 0 {
      var d := queue[0];
      var (modules', out) := Deliver(modules, d);
      RunCountsGrow(modules', queue[1..] + out, Tally(counts, d.signal), fuel - 1);
    }
  }

  const ButtonPulse: SignalDetails := SignalDetails("button", "broadcaster", 0)

  /** The machine after `n` presses, each allowed `fuel` pulses; it stops at the first press that runs out. */
  function Presses(modules: map<string, Module>, n: nat, fuel: nat): RunResult
  {
    if n == 0 then RunResult(modules, Counts(0, 0), fuel, true)
    else
      var before := Presses(modules, n - 1, fuel);
      if !before.done then before
      else Run(before.modules, [ButtonPulse], before.counts, fuel)
  }

  /** Every completed press counts at least its own low button pulse. */
  lemma {:induction false} PressesCountButton(modules: map<string, Module>, n: nat, fuel: nat)
    requires Presses(modules, n, fuel).done
    ensures Presses(modules, n, fuel).counts.lows >= n
  {
    if n > 0 {
      var before := Presses(modules, n - 1, fuel);
      PressesCountButton(modules, n - 1, fuel);
      var d := ButtonPulse;
      var (modules', out) := Deliver(before.modules, d);
      RunCountsGrow(modules', [d][1..] + out, Tally(before.counts, d.signal), fuel - 1);
    }
  }

  /** With no module at all, each press counts just the button's low pulse, so the product is 0. */
  lemma {:induction false} NoModules(n: nat, fuel: nat)
    requires fuel >= 1
    ensures Presses(map[], n, fuel) == RunResult(map[], Counts(n, 0), fuel - 1, true) || n == 0
    ensures Presses(map[], n, fuel).done && Presses(map[], n, fuel).counts == Counts(n, 0)
  {
    if n > 0 {
      NoModules(n - 1, fuel);
      var before := Presses(map[], n - 1, fuel);
      assert Deliver(map[], ButtonPulse) == (map[], []);
      assert [ButtonPulse][1..] + [] == [];
      assert Run(map[], [], Tally(before.counts, 0), fuel - 1) == RunResult(map[], Counts(n, 0), fuel - 1, true);
    }
  }

  /** Once a press runs out of fuel, later presses change nothing. */
  lemma {:induction false} PressesStayStopped(modules: map<string, Module>, k: nat, n: nat, fuel: nat)
    requires k <= n && !Presses(modules, k, fuel).done
    ensures Presses(modules, n, fuel) == Presses(modules, k, fuel)
    decreases n
  {
    if n > k {
      PressesStayStopped(modules, k, n - 1, fuel);
    }
  }

  class Machine {
    var modules: map<string, Module>

    constructor (initial: map<string, Module>)
      ensures modules == initial
    {
      modules := initial;
    }

    /**
     * `pushButton(n)`: each press queues the button's low pulse and handles
     * the queue until it is empty, allowing at most `fuel` pulses per press;
     * the answer is lows × highs. `complete` is false when a press ran out.
     */
    method PushButton(n: nat, fuel: nat) returns (product: nat, complete: bool)
      modifies this
      ensures var r := Presses(old(modules), n, fuel);
        modules == r.modules && complete == r.done && product == r.counts.lows * r.counts.highs
    {
      var signalCounts := Counts(0, 0);
      ghost var initial := modules;
      var i := 0;
      while i < n
        invariant 0 <= i <= n
        invariant Presses(initial, i, fuel) == RunResult(modules, signalCounts, Presses(initial, i, fuel).fuel, true)
      {
        var queue := [ButtonPulse];
        var steps: nat := fuel;
        while queue != [] && steps > 0
          invariant Run(modules, queue, signalCounts, steps) == Presses(initial, i + 1, fuel)
          decreases steps
        {
          var details := queue[0];
          ghost var delivered := Deliver(modules, details);
          assert Run(modules, queue, signalCounts, steps)
            == Run(delivered.0, queue[1..] + delivered.1, Tally(signalCounts, details.signal), steps - 1);
          queue := queue[1..];
          steps := steps - 1;
          signalCounts := Tally(signalCounts, details.signal);
          if details.target in modules {
            var (m, newSignals) := Receive(modules[details.target], details);
            modules := modules[details.target := m];
            queue := queue + newSignals;
          } else {
            assert queue + delivered.1 == queue;
          }
        }
        if queue != [] {
          PressesStayStopped(initial, i + 1, n, fuel);
          return signalCounts.lows * signalCounts.highs, false;
        }
        i := i + 1;
      }
      return signalCounts.lows * signalCounts.highs, true;
    }
  }
}
