/** The two sliding replay windows, esp_replay.go and legacyDTLSReplayWindow, and the
    sets of accepted numbers they stand for. */
module ReplayWindows {
  import opened Bits

  const WORD := 64

  // ---------------------------------------------------------------- ESP

  /** nextSequence is one past the highest number accepted; bit j of missing says that
      nextSequence - 2 - j has not been seen. */
  datatype EspWindow = EspWindow(missing: nat, nextSequence: nat)

  const ESP_FRESH := EspWindow(0, 0)

  datatype EspStep = EspStep(window: EspWindow, accepted: bool)

  /** espReplayWindow.accept. */
  function EspAccept(w: EspWindow, sequence: nat): EspStep {
    if sequence == w.nextSequence then
      EspStep(EspWindow(ShiftLeft(w.missing, 1, WORD), w.nextSequence + 1), true)
    else if sequence > w.nextSequence then
      var delta := sequence - w.nextSequence;
      var missing :=
        if delta >= 64 then Pow2(WORD) - 1
        else if delta == 63 then Pow2(63) - 1
        else Or(ShiftLeft(w.missing, delta + 1, WORD), Pow2(delta) - 1);
      EspStep(EspWindow(missing, sequence + 1), true)
    else
      var delta := w.nextSequence - sequence;
      if delta == 1 || delta > 65 then EspStep(w, false)
      else
        var mask := Pow2(delta - 2);
        if And(w.missing, mask) == 0 then EspStep(w, false)
        else EspStep(w.(missing := AndNot(w.missing, mask)), true)
  }

  /** The window stands for the set of numbers accepted so far. */
  ghost predicate EspRepresents(w: EspWindow, seen: set<nat>) {
    && (w.nextSequence == 0 <==> seen == {})
    && (w.nextSequence > 0 ==> w.nextSequence - 1 in seen)
    && (forall s :: s in seen ==> s < w.nextSequence)
    && (forall j :: 0 <= j < WORD && j + 2 <= w.nextSequence ==>
          (Bit(w.missing, j) <==> w.nextSequence - 2 - j !in seen))
  }

  /** What a receiver that remembers every number would do with a 65-number reach. */
  ghost predicate EspAdmits(next: nat, seen: set<nat>, sequence: nat) {
    sequence !in seen && sequence + 65 >= next
  }

  lemma EspInOrder(w: EspWindow, seen: set<nat>, sequence: nat)
    requires EspRepresents(w, seen) && sequence == w.nextSequence
    ensures EspRepresents(EspAccept(w, sequence).window, seen + {sequence})
  {
    var w' := EspAccept(w, sequence).window;
    forall j | 0 <= j < WORD && j + 2 <= w'.nextSequence
      ensures Bit(w'.missing, j) <==> w'.nextSequence - 2 - j !in seen + {sequence}
    {
      BitOfShiftLeft(w.missing, 1, WORD, j);
    }
  }

  lemma EspJump(w: EspWindow, seen: set<nat>, sequence: nat)
    requires EspRepresents(w, seen) && sequence > w.nextSequence
    ensures EspRepresents(EspAccept(w, sequence).window, seen + {sequence})
  {
    hide Pow2, ShiftLeft, Or, Bit;
    var w' := EspAccept(w, sequence).window;
    var delta := sequence - w.nextSequence;
    forall j | 0 <= j < WORD && j + 2 <= w'.nextSequence
      ensures Bit(w'.missing, j) <==> w'.nextSequence - 2 - j !in seen + {sequence}
    {
      if delta >= 63 {
        BitOfLowOnes(if delta >= 64 then WORD else 63, j);
      } else {
        BitOfOr(ShiftLeft(w.missing, delta + 1, WORD), Pow2(delta) - 1, j);
        BitOfShiftLeft(w.missing, delta + 1, WORD, j);
        BitOfLowOnes(delta, j);
      }
    }
  }

  lemma EspLate(w: EspWindow, seen: set<nat>, sequence: nat)
    requires EspRepresents(w, seen) && sequence < w.nextSequence
    ensures var step := EspAccept(w, sequence);
            && (step.accepted <==> EspAdmits(w.nextSequence, seen, sequence))
            && EspRepresents(step.window, if step.accepted then seen + {sequence} else seen)
  {
    var delta := w.nextSequence - sequence;
    if 1 < delta <= 65 {
      MaskTest(w.missing, delta - 2);
      var w' := EspAccept(w, sequence).window;
      if EspAccept(w, sequence).accepted {
        forall j | 0 <= j < WORD && j + 2 <= w'.nextSequence
          ensures Bit(w'.missing, j) <==> w'.nextSequence - 2 - j !in seen + {sequence}
        {
          BitOfAndNot(w.missing, Pow2(delta - 2), j);
          BitOfPow2(delta - 2, j);
        }
      }
    }
  }

  /** The bitmap decides as the set does, for every jump and every late number. */
  lemma EspAcceptExact(w: EspWindow, seen: set<nat>, sequence: nat)
    requires EspRepresents(w, seen)
    ensures var step := EspAccept(w, sequence);
            && (step.accepted <==> EspAdmits(w.nextSequence, seen, sequence))
            && (step.accepted ==> EspRepresents(step.window, seen + {sequence}))
            && (!step.accepted ==> step.window == w)
            && w.nextSequence <= step.window.nextSequence
  {
    if sequence == w.nextSequence {
      EspInOrder(w, seen, sequence);
    } else if sequence > w.nextSequence {
      EspJump(w, seen, sequence);
    } else {
      EspLate(w, seen, sequence);
    }
  }

  /** The window after a history, and the numbers it accepted. */
  ghost function EspAfter(history: seq<nat>): EspWindow {
    if history == [] then ESP_FRESH
    else EspAccept(EspAfter(history[..|history| - 1]), history[|history| - 1]).window
  }

  ghost function EspSeen(history: seq<nat>): set<nat> {
    if history == [] then {}
    else
      var past, last := history[..|history| - 1], history[|history| - 1];
      if EspAccept(EspAfter(past), last).accepted then EspSeen(past) + {last} else EspSeen(past)
  }

  /** After any history of arrivals the window accepts a number exactly when it was
      never accepted and lies at most 65 below the next one. */
  lemma {:induction false} EspWindowExact(history: seq<nat>, sequence: nat)
    ensures EspRepresents(EspAfter(history), EspSeen(history))
    ensures EspAccept(EspAfter(history), sequence).accepted
       <==> sequence !in EspSeen(history) && sequence + 65 >= EspAfter(history).nextSequence
  {
    if history != [] {
      EspWindowExact(history[..|history| - 1], 0);
      EspAcceptExact(EspAfter(history[..|history| - 1]), EspSeen(history[..|history| - 1]), history[|history| - 1]);
    }
    EspAcceptExact(EspAfter(history), EspSeen(history), sequence);
  }

  /** The window as the code holds it, updated in place. */
  class EspReplayWindow {
    var missing: nat
    var nextSequence: nat

    constructor ()
      ensures Value() == ESP_FRESH
    {
      missing, nextSequence := 0, 0;
    }

    function Value(): EspWindow
      reads this
    {
      EspWindow(missing, nextSequence)
    }

    method Accept(sequence: nat) returns (accepted: bool)
      modifies this
      ensures EspStep(Value(), accepted) == EspAccept(old(Value()), sequence)
    {
      hide Pow2, ShiftLeft, Or, And, AndNot;
      if sequence == nextSequence {
        missing := ShiftLeft(missing, 1, WORD);
        nextSequence := nextSequence + 1;
        return true;
      }
      if sequence > nextSequence {
        var delta := sequence - nextSequence;
        if delta >= 64 {
          missing := Pow2(WORD) - 1;
        } else if delta == 63 {
          missing := Pow2(63) - 1;
        } else {
          missing := ShiftLeft(missing, delta + 1, WORD);
          missing := Or(missing, Pow2(delta) - 1);
        }
        nextSequence := sequence + 1;
        return true;
      }
      var delta := nextSequence - sequence;
      if delta == 1 || delta > 65 {
        return false;
      }
      var mask := Pow2(delta - 2);
      if And(missing, mask) == 0 {
        return false;
      }
      missing := AndNot(missing, mask);
      return true;
    }
  }

  // ---------------------------------------------------------------- legacy DTLS

  /** Bit j of bitmap says that maximum - j has been seen. */
  datatype DtlsWindow = DtlsWindow(initialized: bool, maximum: nat, bitmap: nat)

  const DTLS_FRESH := DtlsWindow(false, 0, 0)

  datatype DtlsStep = DtlsStep(window: DtlsWindow, accepted: bool)

  /** legacyDTLSReplayWindow.accept. */
  function DtlsAccept(w: DtlsWindow, sequence: nat): DtlsStep {
    if !w.initialized then DtlsStep(DtlsWindow(true, sequence, 1), true)
    else if sequence > w.maximum then
      var shift := sequence - w.maximum;
      DtlsStep(DtlsWindow(true, sequence, if shift >= 64 then 1 else Or(ShiftLeft(w.bitmap, shift, WORD), 1)), true)
    else
      var difference := w.maximum - sequence;
      if difference >= 64 then DtlsStep(w, false)
      else
        var mask := Pow2(difference);
        if And(w.bitmap, mask) != 0 then DtlsStep(w, false)
        else DtlsStep(w.(bitmap := Or(w.bitmap, mask)), true)
  }

  ghost predicate DtlsRepresents(w: DtlsWindow, seen: set<nat>) {
    && (!w.initialized <==> seen == {})
    && (w.initialized ==> w.maximum in seen)
    && (forall s :: s in seen ==> s <= w.maximum)
    && (w.initialized ==> forall j :: 0 <= j < WORD && j <= w.maximum ==>
          (Bit(w.bitmap, j) <==> w.maximum - j in seen))
  }

  lemma BitOfOne(j: nat)
    ensures Bit(1, j) <==> j == 0
  {
    assert Pow2(0) == 1;
    BitOfPow2(0, j);
  }

  lemma DtlsAdvance(w: DtlsWindow, seen: set<nat>, sequence: nat)
    requires DtlsRepresents(w, seen) && (!w.initialized || sequence > w.maximum)
    ensures DtlsRepresents(DtlsAccept(w, sequence).window, seen + {sequence})
  {
    var w' := DtlsAccept(w, sequence).window;
    forall j | 0 <= j < WORD && j <= w'.maximum
      ensures Bit(w'.bitmap, j) <==> w'.maximum - j in seen + {sequence}
    {
      BitOfOne(j);
      if w.initialized && sequence - w.maximum < 64 {
        var shift := sequence - w.maximum;
        BitOfOr(ShiftLeft(w.bitmap, shift, WORD), 1, j);
        BitOfShiftLeft(w.bitmap, shift, WORD, j);
      }
    }
  }

  lemma DtlsLate(w: DtlsWindow, seen: set<nat>, sequence: nat)
    requires DtlsRepresents(w, seen) && w.initialized && sequence <= w.maximum
    ensures var step := DtlsAccept(w, sequence);
            && (step.accepted <==> sequence !in seen && sequence + 64 > w.maximum)
            && DtlsRepresents(step.window, if step.accepted then seen + {sequence} else seen)
  {
    var difference := w.maximum - sequence;
    if difference < 64 {
      MaskTest(w.bitmap, difference);
      var w' := DtlsAccept(w, sequence).window;
      if DtlsAccept(w, sequence).accepted {
        forall j | 0 <= j < WORD && j <= w'.maximum
          ensures Bit(w'.bitmap, j) <==> w'.maximum - j in seen + {sequence}
        {
          BitOfOr(w.bitmap, Pow2(difference), j);
          BitOfPow2(difference, j);
        }
      }
    }
  }

  lemma DtlsAcceptExact(w: DtlsWindow, seen: set<nat>, sequence: nat)
    requires DtlsRepresents(w, seen)
    ensures var step := DtlsAccept(w, sequence);
            && (step.accepted <==> seen == {} || (sequence !in seen && sequence + 64 > w.maximum))
            && (step.accepted ==> DtlsRepresents(step.window, seen + {sequence}))
            && (!step.accepted ==> step.window == w)
  {
    if !w.initialized || sequence > w.maximum {
      DtlsAdvance(w, seen, sequence);
    } else {
      DtlsLate(w, seen, sequence);
    }
  }

  ghost function DtlsAfter(history: seq<nat>): DtlsWindow {
    if history == [] then DTLS_FRESH
    else DtlsAccept(DtlsAfter(history[..|history| - 1]), history[|history| - 1]).window
  }

  ghost function DtlsSeen(history: seq<nat>): set<nat> {
    if history == [] then {}
    else
      var past, last := history[..|history| - 1], history[|history| - 1];
      if DtlsAccept(DtlsAfter(past), last).accepted then DtlsSeen(past) + {last} else DtlsSeen(past)
  }

  /** After any history of arrivals the window accepts a number exactly when it is the
      first, or was never accepted and lies less than 64 below the highest. */
  lemma {:induction false} DtlsWindowExact(history: seq<nat>, sequence: nat)
    ensures DtlsRepresents(DtlsAfter(history), DtlsSeen(history))
    ensures DtlsAccept(DtlsAfter(history), sequence).accepted
       <==> history == [] || (sequence !in DtlsSeen(history) && sequence + 64 > DtlsAfter(history).maximum)
  {
    if history != [] {
      DtlsWindowExact(history[..|history| - 1], 0);
      DtlsAcceptExact(DtlsAfter(history[..|history| - 1]), DtlsSeen(history[..|history| - 1]), history[|history| - 1]);
    }
    DtlsAcceptExact(DtlsAfter(history), DtlsSeen(history), sequence);
  }

  class LegacyDtlsReplayWindow {
    var initialized: bool
    var maximum: nat
    var bitmap: nat

    constructor ()
      ensures Value() == DTLS_FRESH
    {
      initialized, maximum, bitmap := false, 0, 0;
    }

    function Value(): DtlsWindow
      reads this
    {
      DtlsWindow(initialized, maximum, bitmap)
    }

    method Accept(sequence: nat) returns (accepted: bool)
      modifies this
      ensures DtlsStep(Value(), accepted) == DtlsAccept(old(Value()), sequence)
    {
      if !initialized {
        initialized, maximum, bitmap := true, sequence, 1;
        return true;
      }
      if sequence > maximum {
        var shift := sequence - maximum;
        if shift >= 64 {
          bitmap := 1;
        } else {
          bitmap := Or(ShiftLeft(bitmap, shift, WORD), 1);
        }
        maximum := sequence;
        return true;
      }
      var difference := maximum - sequence;
      if difference >= 64 {
        return false;
      }
      var mask := Pow2(difference);
      if And(bitmap, mask) != 0 {
        return false;
      }
      bitmap := Or(bitmap, mask);
      return true;
    }
  }
}
