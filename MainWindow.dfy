/** The experiment controls of the Qt-OpenGL main window: each button
    handler checks the experiment state, tells the OpenGL widget (and, on
    termination and reset, the simulator and the user functions) what to
    do, moves to a new state and emits a signal. A handler called in the
    wrong state reports the bug and changes nothing. The enabling of the
    window's buttons is not modelled. */
module MainWindow {

  datatype State = Initialized | Playing | Paused | FastForwarding | Suspended | Done

  datatype Handler = Play | FastForward | Step | Pause | Terminate | Reset | Suspend | Resume

  /** What a handler does that is visible outside the state: the calls it
      makes and the signals it emits, in order. */
  datatype Event =
    | WrongState(handler: Handler, state: State)
    | WidgetPlay | WidgetFastForward | WidgetStep | WidgetPause | WidgetReset
    | SimulatorTerminate | PostExperiment | UserFunctionsReset
    | ExperimentStarted | ExperimentPlaying | ExperimentFastForwarding | ExperimentPaused
    | ExperimentDone | ExperimentReset | ExperimentSuspended | ExperimentResumed

  /** The states each handler accepts. */
  function Accepted(h: Handler): (states: set<State>) {
    match h
    case Play => {Initialized, Paused}
    case FastForward => {Initialized, Paused}
    case Step => {Initialized, Paused}
    case Pause => {Playing, FastForwarding}
    case Terminate => {Playing, Paused, FastForwarding, Suspended}
    case Reset => {Suspended, Done}
    case Suspend => {Initialized, Playing, Paused, FastForwarding, Suspended, Done}
    case Resume => {Suspended}
  }

  /** The state a handler moves to when it accepts the current one. */
  function Target(h: Handler): (s: State) {
    match h
    case Play => Playing
    case FastForward => FastForwarding
    case Step => Paused
    case Pause => Paused
    case Terminate => Done
    case Reset => Initialized
    case Suspend => Suspended
    case Resume => Paused
  }

  /** The state after handler h runs in state s. */
  function Next(h: Handler, s: State): State {
    if s in Accepted(h) then Target(h) else s
  }

  /** The calls and signals of handler h in an accepted state: the widget
      call, then, when the experiment had not yet run, ExperimentStarted,
      then the handler's own signal. */
  function Effects(h: Handler, s: State): (e: seq<Event>) {
    if s !in Accepted(h) then [WrongState(h, s)]
    else
      match h
      case Play => [WidgetPlay] + (if s == Initialized then [ExperimentStarted] else []) + [ExperimentPlaying]
      case FastForward => [WidgetFastForward] + (if s == Initialized then [ExperimentStarted] else []) + [ExperimentFastForwarding]
      case Step => [WidgetStep, ExperimentPaused]
      case Pause => [WidgetPause, ExperimentPaused]
      case Terminate => [WidgetPause, SimulatorTerminate, PostExperiment, ExperimentDone]
      case Reset => [WidgetReset, UserFunctionsReset, ExperimentReset]
      case Suspend => [WidgetPause, ExperimentSuspended]
      case Resume => [ExperimentResumed]
  }

  /** The calls and signals as the handlers are written: Play and
      FastForward test for the initialized state after having moved to
      the new one, so the test never holds. */
  function EffectsAsWritten(h: Handler, s: State): (e: seq<Event>) {
    if s !in Accepted(h) then [WrongState(h, s)]
    else
      var t := Target(h);
      match h
      case Play => [WidgetPlay] + (if t == Initialized then [ExperimentStarted] else []) + [ExperimentPlaying]
      case FastForward => [WidgetFastForward] + (if t == Initialized then [ExperimentStarted] else []) + [ExperimentFastForwarding]
      case _ => Effects(h, s)
  }

  /** As written, no handler in any state emits ExperimentStarted, and the
      handlers differ from the intended ones exactly on Play and
      FastForward from the initialized state. */
  lemma StartedNeverEmittedAsWritten(h: Handler, s: State)
    ensures ExperimentStarted !in EffectsAsWritten(h, s)
    ensures EffectsAsWritten(h, s) != Effects(h, s) <==> (h == Play || h == FastForward) && s == Initialized
  {
    if (h == Play || h == FastForward) && s == Initialized {
      assert Effects(h, s)[1] == ExperimentStarted;
      assert EffectsAsWritten(h, s)[1] != ExperimentStarted;
    }
  }

  /** A handler emits ExperimentStarted exactly when it is Play or
      FastForward run on an experiment that has not yet run, and a
      handler reports the wrong state exactly when it does not accept the
      current one. */
  lemma StartedOnFirstRun(h: Handler, s: State)
    ensures ExperimentStarted in Effects(h, s) <==> (h == Play || h == FastForward) && s == Initialized
    ensures WrongState(h, s) in Effects(h, s) <==> s !in Accepted(h)
    ensures s !in Accepted(h) ==> Next(h, s) == s
  {
  }

  /** Only Reset leads back to the initialized state; every other handler
      leaves it, or stays in it when it does not accept it. */
  lemma OnlyResetInitializes(h: Handler, s: State)
    requires h != Reset && s != Initialized
    ensures Next(h, s) != Initialized
  {
  }

  /** Only Reset and Suspend leave a finished experiment. */
  lemma DoneIsFinal(h: Handler)
    ensures Next(h, Done) != Done <==> h == Reset || h == Suspend
  {
  }

  /** The calls and signals of running the handlers in order. */
  function RunLog(s: State, hs: seq<Handler>): (e: seq<Event>)
    decreases |hs|
  {
    if |hs| == 0 then [] else Effects(hs[0], s) + RunLog(Next(hs[0], s), hs[1..])
  }

  /** Between two resets ExperimentStarted is emitted at most once, and
      not at all once the experiment has left the initialized state. */
  lemma {:induction false} StartedAtMostOncePerRun(s: State, hs: seq<Handler>)
    requires Reset !in hs
    ensures multiset(RunLog(s, hs))[ExperimentStarted] <= if s == Initialized then 1 else 0
    decreases |hs|
  {
    if |hs| > 0 {
      var h := hs[0];
      assert Reset !in hs[1..] by {
        assert forall x :: x in hs[1..] ==> x in hs;
      }
      StartedAtMostOncePerRun(Next(h, s), hs[1..]);
      StartedOnFirstRun(h, s);
      if s != Initialized {
        OnlyResetInitializes(h, s);
      }
      assert RunLog(s, hs) == Effects(h, s) + RunLog(Next(h, s), hs[1..]);
      assert multiset(Effects(h, s))[ExperimentStarted] <= 1;
    }
  }

  class MainWindow {
    var state: State
    /** Every call and signal made so far, in order. */
    var log: seq<Event>

    /** The window starts with an initialized experiment; with the
        autoplay attribute set it plays it at once. */
    constructor(autoplay: bool)
      ensures !autoplay ==> state == Initialized && log == []
      ensures autoplay ==> state == Playing && log == [WidgetPlay, ExperimentStarted, ExperimentPlaying]
    {
      state := Initialized;
      log := [];
      new;
      if autoplay {
        PlayExperiment();
      }
    }

    /** Reports a handler called in the wrong state. */
    method ReportWrongState(h: Handler)
      modifies this
      ensures state == old(state) && log == old(log) + [WrongState(h, old(state))]
    {
      log := log + [WrongState(h, state)];
    }

    method PlayExperiment()
      modifies this
      ensures state == Next(Play, old(state)) && log == old(log) + Effects(Play, old(state))
    {
      if state != Initialized && state != Paused {
        ReportWrongState(Play);
        return;
      }
      log := log + [WidgetPlay];
      var started := state == Initialized;
      state := Playing;
      if started {
        log := log + [ExperimentStarted];
      }
      log := log + [ExperimentPlaying];
    }

    /** Play with the state test after the state change, as written. */
    method PlayExperimentAsWritten()
      modifies this
      ensures state == Next(Play, old(state)) && log == old(log) + EffectsAsWritten(Play, old(state))
    {
      if state != Initialized && state != Paused {
        ReportWrongState(Play);
        return;
      }
      log := log + [WidgetPlay];
      state := Playing;
      log := log + (if state == Initialized then [ExperimentStarted] else []);
      log := log + [ExperimentPlaying];
    }

    method FastForwardExperiment()
      modifies this
      ensures state == Next(FastForward, old(state)) && log == old(log) + Effects(FastForward, old(state))
    {
      if state != Initialized && state != Paused {
        ReportWrongState(FastForward);
        return;
      }
      log := log + [WidgetFastForward];
      var started := state == Initialized;
      state := FastForwarding;
      if started {
        log := log + [ExperimentStarted];
      }
      log := log + [ExperimentFastForwarding];
    }

    /** FastForward with the state test after the state change, as
        written. */
    method FastForwardExperimentAsWritten()
      modifies this
      ensures state == Next(FastForward, old(state)) && log == old(log) + EffectsAsWritten(FastForward, old(state))
    {
      if state != Initialized && state != Paused {
        ReportWrongState(FastForward);
        return;
      }
      log := log + [WidgetFastForward];
      state := FastForwarding;
      log := log + (if state == Initialized then [ExperimentStarted] else []);
      log := log + [ExperimentFastForwarding];
    }

    method StepExperiment()
      modifies this
      ensures state == Next(Step, old(state)) && log == old(log) + Effects(Step, old(state))
    {
      if state != Initialized && state != Paused {
        ReportWrongState(Step);
        return;
      }
      log := log + [WidgetStep];
      state := Paused;
      log := log + [ExperimentPaused];
    }

    method PauseExperiment()
      modifies this
      ensures state == Next(Pause, old(state)) && log == old(log) + Effects(Pause, old(state))
    {
      if state != Playing && state != FastForwarding {
        ReportWrongState(Pause);
        return;
      }
      log := log + [WidgetPause];
      state := Paused;
      log := log + [ExperimentPaused];
    }

    method TerminateExperiment()
      modifies this
      ensures state == Next(Terminate, old(state)) && log == old(log) + Effects(Terminate, old(state))
    {
      if state != Playing && state != Paused && state != FastForwarding && state != Suspended {
        ReportWrongState(Terminate);
        return;
      }
      log := log + [WidgetPause];
      log := log + [SimulatorTerminate, PostExperiment];
      state := Done;
      log := log + [ExperimentDone];
    }

    method ResetExperiment()
      modifies this
      ensures state == Next(Reset, old(state)) && log == old(log) + Effects(Reset, old(state))
    {
      if state != Suspended && state != Done {
        ReportWrongState(Reset);
        return;
      }
      log := log + [WidgetReset, UserFunctionsReset];
      state := Initialized;
      log := log + [ExperimentReset];
    }

    /** Suspending is accepted in every state. */
    method SuspendExperiment()
      modifies this
      ensures state == Next(Suspend, old(state)) && log == old(log) + Effects(Suspend, old(state))
    {
      log := log + [WidgetPause];
      state := Suspended;
      log := log + [ExperimentSuspended];
    }

    method ResumeExperiment()
      modifies this
      ensures state == Next(Resume, old(state)) && log == old(log) + Effects(Resume, old(state))
    {
      if state != Suspended {
        ReportWrongState(Resume);
        return;
      }
      state := Paused;
      log := log + [ExperimentResumed];
    }
  }
}
