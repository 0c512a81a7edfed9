/** The CS35L41 system test harness: a twelve-state application state
    machine advanced by the user push button. Each pass of the main loop
    latches a button press, takes at most one transition (issuing the board
    support calls of that transition) and clears the latch. */
module Harness {

  /** `app_audio_state` is a `uint8_t`. */
  type AppState = x: int | 0 <= x < 256

  const CalPdn: AppState := 0
  const CalBooted: AppState := 1
  const CalPup: AppState := 2
  const Calibrated: AppState := 3
  const Pdn: AppState := 4
  const Booted: AppState := 5
  const Pup: AppState := 6
  const Mute: AppState := 7
  const Unmute: AppState := 8
  const Hibernate: AppState := 9
  const Wake: AppState := 10
  const CheckProcessing: AppState := 11

  /** The number of named states; any other value falls to `default`. */
  const StateCount := 12

  /** The board support calls a transition issues, as labels. */
  datatype BspCall =
    | AudioStop
    | PlaySilence
    | PlayTone              // the stereo 1 kHz -20 dBFS recording
    | DutReset
    | DutBoot(calibration: bool)
    | DutGetId
    | SetDigGain(gain: int)
    | DutPowerUp
    | DutCalibrate
    | DutPowerDown
    | DutIsProcessing
    | DutMute(on: bool)
    | DutHibernate
    | DutWake

  /** The order in which button presses walk the states. */
  const Cycle: seq<AppState> :=
    [CalPdn, CalBooted, CalPup, Calibrated, Pdn, Booted, CheckProcessing, Pup, Mute, Unmute, Hibernate, Wake]

  /** The state after one pass of the main loop with the press latch
      `pressed`; `isProcessing` is what the device reports when asked. */
  function Next(state: AppState, pressed: bool, isProcessing: bool): (next: AppState)
    ensures !pressed ==> next == state
    ensures state >= StateCount ==> next == state
    ensures state < StateCount ==> next < StateCount
    ensures state == CheckProcessing && !isProcessing ==> next == state
    ensures next == Pup && state != Pup ==> state == CheckProcessing && pressed && isProcessing
  {
    if !pressed then state
    else if state == CalPdn then CalBooted
    else if state == CalBooted then CalPup
    else if state == CalPup then Calibrated
    else if state == Calibrated then Pdn
    else if state == Pdn then Booted
    else if state == Booted then CheckProcessing
    else if state == CheckProcessing then (if isProcessing then Pup else CheckProcessing)
    else if state == Pup then Mute
    else if state == Mute then Unmute
    else if state == Unmute then Hibernate
    else if state == Hibernate then Wake
    else if state == Wake then CalPdn
    else state
  }

  /** The board support calls one pass of the main loop issues; the gain
      depends on the id the device reports (`dutIsLeft`). */
  function BspCalls(state: AppState, pressed: bool, dutIsLeft: bool): (calls: seq<BspCall>)
    ensures !pressed || state >= StateCount ==> calls == []
    ensures DutBoot(true) in calls <==> pressed && state == CalPdn
    ensures DutBoot(false) in calls <==> pressed && state == Pdn
    ensures DutIsProcessing in calls <==> pressed && state == CheckProcessing
    ensures pressed && state == Pdn ==> SetDigGain(if dutIsLeft then -6 else -10) in calls
  {
    if !pressed then []
    else if state == CalPdn then [AudioStop, PlaySilence, DutReset, DutBoot(true)]
    else if state == CalBooted then [DutPowerUp]
    else if state == CalPup then [DutCalibrate]
    else if state == Calibrated then [DutPowerDown]
    else if state == Pdn then
      [AudioStop, PlayTone, DutReset, DutBoot(false), DutGetId, SetDigGain(if dutIsLeft then -6 else -10)]
    else if state == Booted then [DutPowerUp]
    else if state == CheckProcessing then [DutIsProcessing]
    else if state == Pup then [DutMute(true)]
    else if state == Mute then [DutMute(false)]
    else if state == Unmute then [DutPowerDown]
    else if state == Hibernate then [DutHibernate]
    else if state == Wake then [DutWake]
    else []
  }

  /** A press walks the cycle one step (the processing gate open). */
  lemma NextFollowsCycle(k: nat)
    requires k < |Cycle|
    ensures Next(Cycle[k], true, true) == Cycle[(k + 1) % |Cycle|]
    ensures Cycle[k] != CheckProcessing ==> Next(Cycle[k], true, false) == Cycle[(k + 1) % |Cycle|]
  {
  }

  /** Every named state occurs in the cycle exactly once. */
  lemma CycleCoversStates()
    ensures |Cycle| == StateCount
    ensures forall s: AppState :: s < StateCount <==> s in Cycle
    ensures forall i, j :: 0 <= i < j < |Cycle| ==> Cycle[i] != Cycle[j]
  {
  }

  /** One pass of the main loop as the model sees it: whether the button
      reported a press, and what the device answers if asked. */
  datatype Tick = Tick(buttonPressed: bool, isProcessing: bool, dutIsLeft: bool)

  /** The state after a run of passes (the latch is clear at every start). */
  function Run(state: AppState, ticks: seq<Tick>): (final: AppState)
    ensures state >= StateCount ==> final == state
    decreases |ticks|
  {
    if ticks == [] then state
    else Run(Next(state, ticks[0].buttonPressed, ticks[0].isProcessing), ticks[1..])
  }

  /** From a named state, the machine never leaves the named states. */
  lemma {:induction false} RunInRange(state: AppState, ticks: seq<Tick>)
    requires state < StateCount
    ensures Run(state, ticks) < StateCount
    decreases |ticks|
  {
    if ticks != [] {
      RunInRange(Next(state, ticks[0].buttonPressed, ticks[0].isProcessing), ticks[1..]);
    }
  }

  /** Without a press nothing moves. */
  lemma {:induction false} RunIdle(state: AppState, ticks: seq<Tick>)
    requires forall i :: 0 <= i < |ticks| ==> !ticks[i].buttonPressed
    ensures Run(state, ticks) == state
    decreases |ticks|
  {
    if ticks != [] {
      RunIdle(state, ticks[1..]);
    }
  }

  /** `m` presses while the device is processing. */
  function Presses(m: nat): (ticks: seq<Tick>)
    ensures |ticks| == m
    ensures forall i :: 0 <= i < m ==> ticks[i].buttonPressed && ticks[i].isProcessing
  {
    seq(m, _ => Tick(true, true, true))
  }

  /** The state `i` presses after the start of the cycle. */
  function CycleAt(i: nat): AppState
  {
    Cycle[i % |Cycle|]
  }

  /** A press moves one place along the cycle. */
  lemma CycleAtNext(i: nat)
    ensures Next(CycleAt(i), true, true) == CycleAt(i + 1)
  {
    var k := i % |Cycle|;
    NextFollowsCycle(k);
    assert (i + 1) % |Cycle| == (k + 1) % |Cycle|;
  }

  /** `m` presses walk `m` places along the cycle. */
  lemma {:induction false} RunAlongCycle(i: nat, m: nat)
    ensures Run(CycleAt(i), Presses(m)) == CycleAt(i + m)
    decreases m
  {
    if m > 0 {
      CycleAtNext(i);
      assert Presses(m)[0] == Tick(true, true, true) && Presses(m)[1..] == Presses(m - 1);
      RunAlongCycle(i + 1, m - 1);
    }
  }

  /** Twelve presses while processing bring the harness back to where it
      started, and not fewer. */
  lemma FullCycle()
    ensures Run(CalPdn, Presses(StateCount)) == CalPdn
    ensures forall m :: 0 < m < StateCount ==> Run(CalPdn, Presses(m)) != CalPdn
  {
    RunAlongCycle(0, StateCount);
    assert CycleAt(0) == CalPdn;
    forall m | 0 < m < StateCount
      ensures Run(CalPdn, Presses(m)) != CalPdn
    {
      RunAlongCycle(0, m);
    }
  }

  /** The harness application: the audio state and the press latch. */
  class App {
    var state: AppState
    var pressed: bool

    /** The initial state: calibration power-down, no press pending. */
    constructor ()
      ensures state == CalPdn && !pressed
    {
      state := CalPdn;
      pressed := false;
    }

    /** One pass of the main loop: latch a reported press, take the current
        state's transition if the latch is set, clear the latch. */
    method Step(buttonPressed: bool, isProcessing: bool, dutIsLeft: bool) returns (calls: seq<BspCall>)
      modifies this
      ensures state == Next(old(state), old(pressed) || buttonPressed, isProcessing)
      ensures calls == BspCalls(old(state), old(pressed) || buttonPressed, dutIsLeft)
      ensures !pressed
    {
      if buttonPressed {
        pressed := true;
      }
      calls := [];
      if state == CalPdn {
        if pressed {
          calls := [AudioStop, PlaySilence, DutReset, DutBoot(true)];
          state := CalBooted;
        }
      } else if state == CalBooted {
        if pressed {
          calls := [DutPowerUp];
          state := CalPup;
        }
      } else if state == CalPup {
        if pressed {
          calls := [DutCalibrate];
          state := Calibrated;
        }
      } else if state == Calibrated {
        if pressed {
          calls := [DutPowerDown];
          state := Pdn;
        }
      } else if state == Pdn {
        if pressed {
          calls := [AudioStop, PlayTone, DutReset, DutBoot(false), DutGetId];
          if dutIsLeft {
            calls := calls + [SetDigGain(-6)];
          } else {
            calls := calls + [SetDigGain(-10)];
          }
          state := Booted;
        }
      } else if state == Booted {
        if pressed {
          calls := [DutPowerUp];
          state := CheckProcessing;
        }
      } else if state == CheckProcessing {
        if pressed {
          calls := [DutIsProcessing];
          if isProcessing {
            state := Pup;
          }
        }
      } else if state == Pup {
        if pressed {
          calls := [DutMute(true)];
          state := Mute;
        }
      } else if state == Mute {
        if pressed {
          calls := [DutMute(false)];
          state := Unmute;
        }
      } else if state == Unmute {
        if pressed {
          calls := [DutPowerDown];
          state := Hibernate;
        }
      } else if state == Hibernate {
        if pressed {
          calls := [DutHibernate];
          state := Wake;
        }
      } else if state == Wake {
        if pressed {
          calls := [DutWake];
          state := CalPdn;
        }
      }
      pressed := false;
    }
  }
}
