/** The frame-signal handshake between the platform's callback threads and the render thread. A callback first counts
    its signal and then raises the flag; the render thread first takes the flag and then reads the count. */
module FrameSignals {
  import opened Wrappers

  /** `raising` callbacks have counted and not yet raised the flag; `taken` means that the render thread has taken the
      flag and not yet read the count. `empty` counts the updates that found no new signal. */
  datatype State = State(signals: nat, flag: bool, raising: nat, taken: bool, lastConsumed: nat, updates: nat,
                         coalesced: nat, empty: nat)

  const INIT := State(0, false, 0, false, 0, 0, 0, 0)

  datatype Step = Count | Raise | Take | Read

  predicate Enabled(s: State, step: Step) {
    match step
    case Count => true
    case Raise => s.raising > 0
    case Take => !s.taken && s.flag
    case Read => s.taken
  }

  function After(s: State, step: Step): State
    requires Enabled(s, step)
  {
    match step
    case Count => s.(signals := s.signals + 1, raising := s.raising + 1)
    case Raise => s.(flag := true, raising := s.raising - 1)
    case Take => s.(flag := false, taken := true)
    case Read =>
      var delta := if s.signals >= s.lastConsumed then s.signals - s.lastConsumed else 0;
      s.(taken := false, lastConsumed := s.signals, updates := s.updates + 1,
         coalesced := s.coalesced + (if delta > 1 then delta - 1 else 0),
         empty := s.empty + (if delta == 0 then 1 else 0))
  }

  function Reached(steps: seq<Step>): Option<State>
    decreases |steps|
  {
    if steps == [] then Some(INIT)
    else
      match Reached(steps[..|steps| - 1])
      case None => None
      case Some(s) => if Enabled(s, steps[|steps| - 1]) then Some(After(s, steps[|steps| - 1])) else None
  }

  /** How often a step occurs in a run. */
  function Occurrences(steps: seq<Step>, step: Step): nat {
    if steps == [] then 0
    else Occurrences(steps[..|steps| - 1], step) + if steps[|steps| - 1] == step then 1 else 0
  }

  /** No interleaving loses a signal: an unconsumed signal is announced by the flag, or by a callback that is about to
      raise it, or the render thread is about to read the count. And the books balance: every signal consumed is an
      update or was coalesced into one. */
  lemma {:induction false} NoSignalLost(steps: seq<Step>)
    requires Reached(steps).Some?
    ensures var s := Reached(steps).value;
            && s.signals == Occurrences(steps, Count)
            && s.updates == Occurrences(steps, Read)
            && s.lastConsumed <= s.signals
            && (s.flag || s.raising > 0 || s.taken || s.lastConsumed == s.signals)
            && s.lastConsumed + s.empty == s.updates + s.coalesced
    decreases |steps|
  {
    if steps != [] {
      NoSignalLost(steps[..|steps| - 1]);
    }
  }

  /** When both sides are idle, either the flag is up or every signal has been consumed. */
  lemma IdleMeansAnnouncedOrConsumed(steps: seq<Step>)
    requires Reached(steps).Some? && Reached(steps).value.raising == 0 && !Reached(steps).value.taken
    ensures Reached(steps).value.flag || Reached(steps).value.lastConsumed == Occurrences(steps, Count)
  {
    NoSignalLost(steps);
  }

  /** Once the callbacks are quiet, the render thread catches up with at most two reads of the count, whatever happened
      before: the one it may be about to make, and one for the flag. */
  lemma TwoReadsCatchUp(steps: seq<Step>) returns (longer: seq<Step>)
    requires Reached(steps).Some? && Reached(steps).value.raising == 0
    ensures Reached(longer).Some? && Occurrences(longer, Count) == Occurrences(steps, Count)
    ensures Occurrences(longer, Read) <= Occurrences(steps, Read) + 2
    ensures var s := Reached(longer).value; !s.flag && !s.taken && s.lastConsumed == Occurrences(steps, Count)
  {
    NoSignalLost(steps);
    longer := steps;
    if Reached(longer).value.taken {
      longer := Extend(longer, Read);
    }
    if Reached(longer).value.flag {
      longer := Extend(longer, Take);
      longer := Extend(longer, Read);
    }
  }

  lemma Extend(steps: seq<Step>, step: Step) returns (longer: seq<Step>)
    requires Reached(steps).Some? && Enabled(Reached(steps).value, step)
    ensures longer == steps + [step] && Reached(longer) == Some(After(Reached(steps).value, step))
    ensures forall other :: Occurrences(longer, other) == Occurrences(steps, other) + if other == step then 1 else 0
  {
    longer := steps + [step];
    assert longer[..|longer| - 1] == steps;
  }

  /** The renderer's counters, as the two sides edit them. */
  class SignalCounters {
    var frameSignals: nat
    var frameAvailable: bool
    var lastConsumedSignal: nat
    var updates: nat
    var coalescedSignals: nat
    ghost var raising: nat
    ghost var taken: bool
    ghost var empty: nat
    ghost var trace: seq<State>  // the state after every step, one after the other

    ghost function Abs(): State
      reads this
    {
      State(frameSignals, frameAvailable, raising, taken, lastConsumedSignal, updates, coalescedSignals, empty)
    }

    /** Puts the state on record after a step. */
    ghost method Observe()
      modifies this`trace
      ensures trace == old(trace) + [Abs()]
    {
      trace := trace + [Abs()];
    }

    /** The callback, uninterrupted: it counts first, and raises the flag when the count is visible. */
    method OnZeroCopyFrameAvailable()
      modifies this
      ensures var counted := After(old(Abs()), Count); trace == old(trace) + [counted, After(counted, Raise)]
      ensures Abs() == trace[|trace| - 1]
    {
      frameSignals, raising := frameSignals + 1, raising + 1;
      Observe();
      frameAvailable, raising := true, raising - 1;
      Observe();
    }

    /** The signal part of the frame update: it takes the flag first, and reads the count when the flag is down. A
        callback may come in between, and its signal is then among those read. */
    method ConsumeSignals(interrupted: bool) returns (available: bool)
      requires !taken
      modifies this
      ensures available == old(frameAvailable)
      ensures available ==>
                var took := After(old(Abs()), Take);
                var counted := After(took, Count);
                var raised := After(counted, Raise);
                trace == old(trace) + if interrupted then [took, counted, raised, After(raised, Read)]
                                      else [took, After(took, Read)]
      ensures available ==> Abs() == trace[|trace| - 1]
      ensures !available ==> Abs() == old(Abs()) && trace == old(trace)
    {
      available := frameAvailable;
      if !available {
        return;
      }
      frameAvailable, taken := false, true;
      Observe();
      if interrupted {
        OnZeroCopyFrameAvailable();
      }
      var signalCount := frameSignals;
      var signalDelta := if signalCount >= lastConsumedSignal then signalCount - lastConsumedSignal else 0;
      if signalDelta > 1 {
        coalescedSignals := coalescedSignals + signalDelta - 1;
      }
      lastConsumedSignal, taken := signalCount, false;
      updates := updates + 1;
      if signalDelta == 0 {
        empty := empty + 1;
      }
      Observe();
    }
  }
}
