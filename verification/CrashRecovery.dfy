/** The objects of crash recovery, updated in place; specified by `CrashFrames` and `CrashChain`. */
module CrashRecovery {
  import opened Wrappers
  import F = CrashFrames
  import K = CrashChain

  // What belongs to the whole process: the running flag, whether it has exited, and how often it
  // announced that the recovery process was torn down.
  class Globals {
    var running: bool
    var exited: bool
    var tornDownEvents: nat

    constructor ()
      ensures !running && !exited && tornDownEvents == 0
    {
      running, exited, tornDownEvents := false, false, 0;
    }
  }

  // Stored preferences; writes succeed.
  class Preferences {
    var forceX11: Option<bool>
    var preferLowPowerGpu: Option<bool>

    function In(machine: K.Env): K.Env
      reads this
    {
      machine.(forceX11 := forceX11, preferLowPowerGpu := preferLowPowerGpu)
    }

    constructor (forceX11: Option<bool>, preferLowPowerGpu: Option<bool>)
      ensures this.forceX11 == forceX11 && this.preferLowPowerGpu == preferLowPowerGpu
    {
      this.forceX11, this.preferLowPowerGpu := forceX11, preferLowPowerGpu;
    }
  }

  method HandleParentCrash(mechanism: K.Mechanism, prefs: Preferences, machine: K.Env) returns (notify: bool)
    requires K.Exists(machine.os, mechanism)
    modifies prefs
    ensures (prefs.In(machine), notify) == K.HandleParentCrash(old(prefs.In(machine)), mechanism)
  {
    match mechanism {
      case X11 =>
        if prefs.forceX11 != Some(true) {
          prefs.forceX11 := Some(true);
        }
        notify := true;
      case DedicatedGpu =>
        if prefs.preferLowPowerGpu.None? {
          prefs.preferLowPowerGpu := Some(false);
        }
        notify := false;
      case DisableOpenGl =>
        notify := false;
      case ForceVulkan =>
        notify := false;
    }
  }

  class CrashRecoveryProcess {
    var consecutiveErrors: map<F.WindowId, nat>
    var successfulFrames: map<F.WindowId, nat>
    var renders: map<F.WindowId, seq<F.DrawFrameResult>>
    var isAlive: bool

    function Counters(): F.Counters
      reads this
    {
      F.Counters(consecutiveErrors, successfulFrames, renders)
    }

    constructor ()
      ensures isAlive && Counters() == F.Counters(map[], map[], map[])
    {
      consecutiveErrors, successfulFrames, renders := map[], map[], map[];
      isAlive := true;
    }

    method Kill(globals: Globals)
      modifies this`isAlive, globals`running
      ensures !isAlive
      ensures globals.running == (old(globals.running) && !old(isAlive))
    {
      if !isAlive {
        return;
      }
      globals.running := false;
      isAlive := false;
    }

    method HandleDrawFrameError(w: F.WindowId, globals: Globals)
      modifies this`renders, this`consecutiveErrors, globals`exited
      ensures Counters() == F.Errs(old(Counters()), w)
      ensures globals.exited <==> old(globals.exited) || consecutiveErrors[w] >= F.NUM_DRAW_ERRORS_BEFORE_EXITING
    {
      var sequence := if w in renders then renders[w] else [];
      renders := renders[w := sequence + [F.Errored]];
      var numErrors := if w in consecutiveErrors then consecutiveErrors[w] else 0;
      numErrors := numErrors + 1;
      consecutiveErrors := consecutiveErrors[w := numErrors];
      if numErrors >= F.NUM_DRAW_ERRORS_BEFORE_EXITING {
        globals.exited := true;
      }
    }

    method HandleFrameDrawn(w: F.WindowId, globals: Globals)
      requires isAlive
      modifies this, globals`running
      ensures Counters() == F.Draws(old(Counters()), w)
      ensures isAlive <==> successfulFrames[w] < F.NUM_SUCCESSFUL_DRAW_FRAMES_PER_WINDOW
      ensures globals.running == (old(globals.running) && isAlive)
    {
      consecutiveErrors := consecutiveErrors[w := 0];
      var sequence := if w in renders then renders[w] else [];
      renders := renders[w := sequence + [F.Successful]];
      var draws := if w in successfulFrames then successfulFrames[w] else 0;
      draws := draws + 1;
      successfulFrames := successfulFrames[w := draws];
      if draws >= F.NUM_SUCCESSFUL_DRAW_FRAMES_PER_WINDOW {
        Kill(globals);
      }
    }
  }

  class CrashRecovery {
    var childProcess: CrashRecoveryProcess?
    var shouldNotifyUser: Option<K.Mechanism>
    const globals: Globals

    // The slot holds a process only while it is alive, and the flag says whether it does.
    ghost predicate Valid()
      reads this, childProcess, globals
    {
      && (childProcess != null ==> childProcess.isAlive)
      && (globals.running <==> childProcess != null)
    }

    ghost function Value(): F.State
      reads this, childProcess, globals
    {
      F.State(if childProcess == null then None else Some(childProcess.Counters()),
              globals.running, globals.exited, globals.tornDownEvents)
    }

    constructor (recoveringBy: Option<K.Mechanism>, recoveryEnabled: bool, spawnSucceeds: bool,
                 prefs: Preferences, machine: K.Env, globals: Globals)
      requires !globals.running && (recoveringBy.Some? ==> K.Exists(machine.os, recoveringBy.value))
      modifies prefs, globals`running
      ensures Valid() && this.globals == globals
      ensures var startup := K.Start(old(prefs.In(machine)), recoveringBy, recoveryEnabled);
              && shouldNotifyUser == startup.notify
              && prefs.In(machine) == startup.env
              && (childProcess != null <==> startup.prepared.Some? && spawnSucceeds)
      ensures childProcess != null && !globals.exited && globals.tornDownEvents == 0 ==> Value() == F.Spawned
    {
      this.globals := globals;
      childProcess := null;
      shouldNotifyUser := None;
      new;
      var notify: Option<K.Mechanism> := None;
      if recoveringBy.Some? {
        var tell := HandleParentCrash(recoveringBy.value, prefs, machine);
        notify := if tell then recoveringBy else None;
      }
      if recoveryEnabled {
        var mechanism := K.Choose(prefs.In(machine));
        if mechanism.Some? {
          if spawnSucceeds {
            globals.running := true;
            childProcess := new CrashRecoveryProcess();
          }
          shouldNotifyUser := notify;
        }
      }
    }

    method OnDrawFrameError(w: F.WindowId)
      requires Valid() && !globals.exited
      modifies childProcess, globals
      ensures Valid()
      ensures Value() == F.Step(old(Value()), F.Frame(w, F.Errored))
    {
      if childProcess != null {
        childProcess.HandleDrawFrameError(w, globals);
      }
    }

    method OnFrameDrawn(w: F.WindowId)
      requires Valid() && !globals.exited
      modifies this`childProcess, childProcess, globals
      ensures Valid()
      ensures Value() == F.Step(old(Value()), F.Frame(w, F.Successful))
    {
      var child := childProcess;
      childProcess := null;
      if child != null {
        child.HandleFrameDrawn(w, globals);
        if !child.isAlive {
          globals.tornDownEvents := globals.tornDownEvents + 1;
        }
      }
      if child != null && child.isAlive {
        childProcess := child;
      }
    }

    method TeardownChild()
      requires Valid() && !globals.exited
      modifies this`childProcess, childProcess, globals
      ensures Valid()
      ensures Value() == F.Step(old(Value()), F.Teardown)
    {
      var child := childProcess;
      childProcess := null;
      if child != null {
        child.Kill(globals);
      }
    }
  }
}
