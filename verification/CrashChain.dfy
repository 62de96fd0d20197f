/**
 Which recovery a process prepares for its own crash, what the recovering process changes, and
 how long a chain of crashes and recoveries can get.

 Preference writes succeed and nobody edits preferences while a chain is under way.
 */
module CrashChain {
  import opened Wrappers

  datatype Os = Linux | Windows | OtherOs

  datatype Backend = Vulkan | Dx12 | Metal | OpenGl | BrowserWebGpu

  datatype Mechanism = X11 | DedicatedGpu | DisableOpenGl | ForceVulkan

  // Everything the choice looks at: build, environment variables, stored preferences.
  datatype Env = Env(
    os: Os, integrationChannel: bool, waylandDisplay: bool, wgpuBackends: Option<set<Backend>>,
    forceX11: Option<bool>, preferLowPowerGpu: Option<bool>)

  // The switch to X11 is compiled for Linux only.
  predicate Exists(os: Os, m: Mechanism) {
    m.X11? ==> os.Linux?
  }

  // choose_crash_recovery_mechanism
  function Choose(env: Env): (chosen: Option<Mechanism>)
    ensures chosen.Some? ==> Exists(env.os, chosen.value)
  {
    if env.integrationChannel then None
    else if env.os.Linux? && env.forceX11 == Some(false) && env.waylandDisplay then Some(X11)
    else if env.os.Windows? && env.wgpuBackends.None? then Some(DisableOpenGl)
    else if env.os.Windows? && env.wgpuBackends != Some({Vulkan}) then Some(ForceVulkan)
    else if env.preferLowPowerGpu.None? then Some(DedicatedGpu)
    else None
  }

  // The environment that spawn_recovery_process hands to the child.
  function ChildEnv(env: Env, m: Mechanism): Env {
    match m
    case DisableOpenGl => env.(wgpuBackends := Some({Vulkan, Dx12}))
    case ForceVulkan => env.(wgpuBackends := Some({Vulkan}))
    case _ => env
  }

  // handle_parent_crash: the preferences it leaves, and whether the user is to be told.
  function HandleParentCrash(env: Env, m: Mechanism): (Env, bool)
    requires Exists(env.os, m)
  {
    match m
    case X11 => (env.(forceX11 := Some(true)), true)
    case DedicatedGpu =>
      (if env.preferLowPowerGpu.None? then env.(preferLowPowerGpu := Some(false)) else env, false)
    case _ => (env, false)
  }

  // The process that takes over when this one crashes.
  function Successor(env: Env): Option<Env> {
    match Choose(env)
    case None => None
    case Some(m) => Some(HandleParentCrash(ChildEnv(env, m), m).0)
  }

  // Wayland fallback still open, backend settings still to try, GPU preference unset.
  function Measure(env: Env): nat {
    (if env.os.Linux? && env.forceX11 == Some(false) && env.waylandDisplay then 1 else 0)
    + (if !env.os.Windows? || env.wgpuBackends == Some({Vulkan}) then 0 else if env.wgpuBackends.Some? then 1 else 2)
    + (if env.preferLowPowerGpu.None? then 1 else 0)
  }

  /** Each recovery uses up exactly one unit of the measure, and recovery is offered exactly while
      some is left (and the channel allows it). */
  lemma RecoveryLowersMeasure(env: Env)
    ensures Successor(env).Some? <==> Measure(env) > 0 && !env.integrationChannel
    ensures Successor(env).Some? ==> Measure(Successor(env).value) == Measure(env) - 1
  {
    assert Dx12 in {Vulkan, Dx12} && Dx12 !in {Vulkan};
  }

  // The mechanisms used if every process in turn crashes.
  function Chain(env: Env): seq<Mechanism>
    decreases Measure(env)
  {
    RecoveryLowersMeasure(env);
    match Choose(env)
    case None => []
    case Some(m) => [m] + Chain(Successor(env).value)
  }

  /** Any chain of crashes ends: it is exactly as long as the measure, so at most 2 processes take
      over on Linux, 3 on Windows and 1 elsewhere. */
  lemma {:induction false} ChainLength(env: Env)
    ensures |Chain(env)| == if env.integrationChannel then 0 else Measure(env)
    ensures |Chain(env)| <= match env.os case Linux => 2 case Windows => 3 case OtherOs => 1
    decreases Measure(env)
  {
    RecoveryLowersMeasure(env);
    if Choose(env).Some? { ChainLength(Successor(env).value); }
  }

  function OptIf(c: bool, m: Mechanism): seq<Mechanism> {
    if c then [m] else []
  }

  /** The chain, spelled out: display server first, then graphics backends, then the GPU, each
      tried at most once and only where it can still help. */
  lemma {:induction false} ChainIs(env: Env)
    requires !env.integrationChannel
    ensures Chain(env)
         == OptIf(env.os.Linux? && env.forceX11 == Some(false) && env.waylandDisplay, X11)
            + OptIf(env.os.Windows? && env.wgpuBackends.None?, DisableOpenGl)
            + OptIf(env.os.Windows? && env.wgpuBackends != Some({Vulkan}), ForceVulkan)
            + OptIf(env.preferLowPowerGpu.None?, DedicatedGpu)
    decreases Measure(env)
  {
    RecoveryLowersMeasure(env);
    if Choose(env).Some? {
      ChainIs(Successor(env).value);
      assert Dx12 in {Vulkan, Dx12} && Dx12 !in {Vulkan};
    }
  }

  // The process that takes over after n crashes.
  function After(env: Env, n: nat): Env
    requires n <= |Chain(env)|
    decreases n
  {
    if n == 0 then env
    else
      RecoveryLowersMeasure(env);
      After(Successor(env).value, n - 1)
  }

  // The first n mechanisms of the chain.
  function Used(env: Env, n: nat): set<Mechanism>
    requires n <= |Chain(env)|
  {
    set m | m in Chain(env)[..n]
  }

  // What using these mechanisms leaves of the environment and the preferences.
  predicate LeftBy(env: Env, later: Env, used: set<Mechanism>) {
    && later.forceX11 == (if X11 in used then Some(true) else env.forceX11)
    && later.preferLowPowerGpu == (if DedicatedGpu in used then Some(false) else env.preferLowPowerGpu)
    && later.wgpuBackends == (if ForceVulkan in used then Some({Vulkan})
                              else if DisableOpenGl in used then Some({Vulkan, Dx12})
                              else env.wgpuBackends)
    && (later.os, later.integrationChannel, later.waylandDisplay)
       == (env.os, env.integrationChannel, env.waylandDisplay)
  }

  /** What every process of a chain of crashes finds: X11 forced from the process that switches to it
      on; a preference for the dedicated GPU, written down as false, from the one that switches GPUs
      on; first Vulkan and Dx12 alone as backends, and then Vulkan alone.  Nothing else changes. */
  lemma {:induction false} ChainLeaves(env: Env, n: nat)
    requires n <= |Chain(env)|
    ensures LeftBy(env, After(env, n), Used(env, n))
    decreases n
  {
    if n > 0 {
      UsedSplits(env, n);
      OneRecovery(env);
      var next := Successor(env).value;
      ChainLeaves(next, n - 1);
      LeftByBoth(env, next, Choose(env).value, After(next, n - 1), Used(next, n - 1));
    }
  }

  lemma UsedSplits(env: Env, n: nat)
    requires 0 < n <= |Chain(env)|
    ensures Successor(env).Some? && n - 1 <= |Chain(Successor(env).value)|
    ensures Used(env, n) == {Choose(env).value} + Used(Successor(env).value, n - 1)
    ensures forall m :: m in Used(Successor(env).value, n - 1) ==> m in Chain(Successor(env).value)
  {
    RecoveryLowersMeasure(env);
    var m, next := Choose(env).value, Successor(env).value;
    assert Chain(env)[..n] == [m] + Chain(next)[..n - 1];
  }

  lemma OneRecovery(env: Env)
    requires Successor(env).Some?
    ensures LeftBy(env, Successor(env).value, {Choose(env).value})
    ensures Choose(env) == Some(ForceVulkan) ==>
              ForceVulkan !in Chain(Successor(env).value) && DisableOpenGl !in Chain(Successor(env).value)
  {
    ChainFrom(Successor(env).value);
  }

  lemma LeftByBoth(env: Env, next: Env, m: Mechanism, later: Env, used: set<Mechanism>)
    requires LeftBy(env, next, {m}) && LeftBy(next, later, used)
    requires m.ForceVulkan? ==> ForceVulkan !in used && DisableOpenGl !in used
    ensures LeftBy(env, later, {m} + used)
  {
  }

  // Which mechanisms may still come.
  lemma {:induction false} ChainFrom(env: Env)
    ensures X11 in Chain(env) ==> env.forceX11 == Some(false)
    ensures DedicatedGpu in Chain(env) ==> env.preferLowPowerGpu.None?
    ensures DisableOpenGl in Chain(env) ==> env.wgpuBackends.None?
    ensures ForceVulkan in Chain(env) ==> env.wgpuBackends != Some({Vulkan})
  {
    if env.integrationChannel {
      ChainLength(env);
    } else {
      ChainIs(env);
    }
  }

  // CrashRecovery::new: what a starting process tells its user, and what it prepares next.
  datatype Startup = Startup(notify: Option<Mechanism>, prepared: Option<Mechanism>, env: Env)

  function Start(env: Env, recoveringBy: Option<Mechanism>, recoveryEnabled: bool): Startup
    requires recoveringBy.Some? ==> Exists(env.os, recoveringBy.value)
  {
    var handled := if recoveringBy.None? then (env, false) else HandleParentCrash(env, recoveringBy.value);
    var notify := if handled.1 then recoveringBy else None;
    if recoveryEnabled && Choose(handled.0).Some? then Startup(notify, Choose(handled.0), handled.0)
    else Startup(None, None, handled.0)
  }

  /** A user is told about a crash exactly when the recovery was the switch to X11 and the process
      goes on to prepare a further recovery, for which the GPU preference has to be unset: with
      nothing further to prepare, the notice is dropped although the recovery happened. */
  lemma UserIsToldIff(env: Env, recoveringBy: Option<Mechanism>, recoveryEnabled: bool)
    requires recoveringBy.Some? ==> Exists(env.os, recoveringBy.value)
    ensures Start(env, recoveringBy, recoveryEnabled).notify.Some? <==>
            && recoveringBy == Some(X11) && recoveryEnabled
            && !env.integrationChannel && env.preferLowPowerGpu.None?
  {
  }

  /** Each process that takes over starts up in the state that the chain says, and prepares the next
      mechanism of the chain; with recovery disabled it prepares nothing. */
  lemma StartupsFollowTheChain(env: Env, recoveryEnabled: bool)
    requires Chain(env) != []
    ensures var next := Start(ChildEnv(env, Chain(env)[0]), Some(Chain(env)[0]), recoveryEnabled);
            && next.env == After(env, 1)
            && next.prepared == if recoveryEnabled && |Chain(env)| > 1 then Some(Chain(env)[1]) else None
    ensures Start(env, None, recoveryEnabled) ==
            Startup(None, if recoveryEnabled then Some(Chain(env)[0]) else None, env)
  {
    var next := Successor(env).value;
    assert Chain(env) == [Choose(env).value] + Chain(next);
    assert After(env, 1) == After(next, 0);
  }

  /** Under Wayland with a GPU preference stored, a crash makes the next process switch to X11 for
      good, and it does not say so. */
  lemma SwitchToX11CanGoUntold(gpu: bool)
    ensures var env := Env(Linux, false, true, None, Some(false), Some(gpu));
            && Choose(env) == Some(X11)
            && var next := Start(ChildEnv(env, X11), Some(X11), true);
               next.notify.None? && next.env.forceX11 == Some(true)
  {
  }
}
