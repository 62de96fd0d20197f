/** A root view's authentication state, replaced in place by its event handlers; see `AuthFlow`. */
module RootViews {
  import opened Wrappers
  import opened AuthFlow

  class RootView {
    var authOnboardingState: Auth
    // Every workspace created for this view, oldest first.
    var created: seq<Source>
    const wasm: bool

    function Value(): Root
      reads this
    {
      Root(authOnboardingState, created)
    }

    constructor (source: Source, loggedIn: bool, wasm: bool, preLoginOnboarding: bool)
      ensures this.wasm == wasm
      ensures Value() == Start(source, loggedIn, wasm, preLoginOnboarding)
    {
      this.wasm := wasm;
      created := [];
      authOnboardingState := AuthScreen(source);
      new;
      if loggedIn {
        var workspace := CreateWorkspace(source);
        authOnboardingState := Terminal(workspace);
      } else if wasm {
        authOnboardingState := WebImport(Workspace(source));
      } else if preLoginOnboarding {
        authOnboardingState := Onboarding(Workspace(source));
      } else {
        var workspace := CreateWorkspace(source);
        authOnboardingState := Terminal(workspace);
      }
    }

    method CreateWorkspace(args: Source) returns (handle: Handle)
      modifies this`created
      ensures handle == |old(created)| && created == old(created) + [args]
    {
      handle := |created|;
      created := created + [args];
    }

    method ToWorkspace(target: Target) returns (handle: Handle)
      modifies this`created
      ensures Root(Terminal(handle), created) == Enter(old(Value()), target)
    {
      match target {
        case Existing(workspace) => handle := workspace;
        case Workspace(args) => handle := CreateWorkspace(args);
      }
    }

    method EnterTarget(target: Target)
      modifies this
      ensures Value() == Enter(old(Value()), target)
    {
      var workspace := ToWorkspace(target);
      authOnboardingState := Terminal(workspace);
    }

    method TryOpenOnboardingSlides()
      modifies this
      ensures Value() == TryOpenOnboarding(old(Value()))
    {
      var target;
      match authOnboardingState {
        case AuthScreen(args) => target := Workspace(args);
        case ConfirmIncomingAuth(args) => target := Workspace(args);
        case Terminal(workspace) => target := Existing(workspace);
        case _ => return;
      }
      authOnboardingState := Onboarding(target);
    }

    method CompleteAuthAndCreateWorkspace(facts: Facts)
      modifies this
      ensures Value() == CompleteAuth(old(Value()), facts)
    {
      var isOnboarded := GetOr(facts.isOnboarded, true);
      var isAnonymous := GetOr(facts.isAnonymous, false);
      if !isOnboarded && !isAnonymous && !facts.completedLocally && facts.agentOnboarding {
        TryOpenOnboardingSlides();
      }
      match authOnboardingState {
        case AuthScreen(args) => EnterTarget(Workspace(args));
        case ConfirmIncomingAuth(args) => EnterTarget(Workspace(args));
        case LoginSlide(target) => EnterTarget(target);
        case _ =>
      }
    }

    method ShowNeedsSsoLinkView()
      modifies this
      ensures Value() == ShowNeedsSsoLink(old(Value()))
    {
      match authOnboardingState {
        case AuthScreen(args) => authOnboardingState := NeedsSsoLink(Workspace(args));
        case ConfirmIncomingAuth(args) => authOnboardingState := NeedsSsoLink(Workspace(args));
        case Terminal(workspace) => authOnboardingState := NeedsSsoLink(Existing(workspace));
        case _ =>
      }
    }

    method ShowWebHandoffView()
      modifies this
      ensures Value() == ShowWebHandoff(old(Value()))
    {
      match authOnboardingState {
        case AuthScreen(args) => authOnboardingState := WebImport(Workspace(args));
        case ConfirmIncomingAuth(args) => authOnboardingState := WebImport(Workspace(args));
        case NeedsSsoLink(target) => authOnboardingState := WebImport(target);
        case Terminal(workspace) => authOnboardingState := WebImport(Existing(workspace));
        case _ =>
      }
    }

    method DoLogOut()
      modifies this
      ensures Value() == LoggedOut(old(Value()))
    {
      match authOnboardingState {
        case ConfirmIncomingAuth(args) => authOnboardingState := AuthScreen(args);
        case NeedsSsoLink(Workspace(args)) => authOnboardingState := AuthScreen(args);
        case Terminal(_) => authOnboardingState := AuthScreen(Empty);
        case _ =>
      }
    }

    method HandleAuthComplete(facts: Facts)
      modifies this
      ensures Value() == AuthCompleted(old(Value()), facts, wasm)
    {
      if GetOr(facts.needsSsoLink, false) {
        ShowNeedsSsoLinkView();
      } else if authOnboardingState.AuthScreen? || authOnboardingState.ConfirmIncomingAuth? {
        CompleteAuthAndCreateWorkspace(facts);
      } else if authOnboardingState.LoginSlide? {
        CompleteAuthAndCreateWorkspace(facts);
      } else if authOnboardingState.NeedsSsoLink? {
        if facts.needsSsoLink == Some(false) {
          EnterTarget(authOnboardingState.target);
        }
      }
      if wasm && authOnboardingState.WebImport? {
        EnterTarget(authOnboardingState.target);
      }
      if facts.variantOne {
        CompleteAuthAndCreateWorkspace(facts);
      }
    }

    method HandleSkippedLogin(facts: Facts)
      modifies this
      ensures Value() == Step(old(Value()), SkippedLogin(facts), wasm)
    {
      match authOnboardingState {
        case AuthScreen(_) => CompleteAuthAndCreateWorkspace(facts);
        case ConfirmIncomingAuth(_) => CompleteAuthAndCreateWorkspace(facts);
        case LoginSlide(target) => EnterTarget(target);
        case _ =>
      }
    }

    method HandleEvent(event: Event)
      modifies this
      ensures Value() == Step(old(Value()), event, wasm)
    {
      match event {
        case AuthComplete(facts) => HandleAuthComplete(facts);
        case AuthFailed(reimport) =>
          if wasm && reimport { ShowWebHandoffView(); }
        case SkippedLogin(facts) => HandleSkippedLogin(facts);
        case LoginOverrideDetected =>
          match authOnboardingState {
            case AuthScreen(args) => authOnboardingState := ConfirmIncomingAuth(args);
            case ConfirmIncomingAuth(args) => authOnboardingState := ConfirmIncomingAuth(args);
            case _ =>
          }
        case OverrideModalClosed =>
          if authOnboardingState.ConfirmIncomingAuth? { DoLogOut(); }
        case BackToOnboarding =>
          if authOnboardingState.LoginSlide? { authOnboardingState := Onboarding(authOnboardingState.target); }
        case LoginLaterConfirmed =>
          if authOnboardingState.LoginSlide? { EnterTarget(authOnboardingState.target); }
        case OnboardingCompleted =>
          if authOnboardingState.Onboarding? { EnterTarget(authOnboardingState.target); }
        case OnboardingSkipped =>
          if authOnboardingState.Onboarding? { EnterTarget(authOnboardingState.target); }
        case PrivacySettingsRequested =>
          if authOnboardingState.Onboarding? { authOnboardingState := LoginSlide(authOnboardingState.target); }
        case LoginFromWelcomeRequested =>
          if authOnboardingState.Onboarding? { authOnboardingState := LoginSlide(authOnboardingState.target); }
        case DebugEnterOnboarding(facts) =>
          if facts.debugFeatures && facts.agentOnboarding { TryOpenOnboardingSlides(); }
        case WebHandoffUnsupported =>
          if wasm && authOnboardingState.WebImport? {
            match authOnboardingState.target {
              case Workspace(args) => authOnboardingState := AuthScreen(args);
              case Existing(workspace) => authOnboardingState := Terminal(workspace);
            }
          }
        case LogOut => DoLogOut();
      }
    }
  }
}
