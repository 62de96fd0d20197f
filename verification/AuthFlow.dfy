/**
 The authentication and onboarding states of a root view, and the workspace handle they guard.

 A workspace handle is the position of the workspace in the log of all workspaces this view
 ever created.  `Step` is the specification of the methods of `RootViews.RootView`.
 */
module AuthFlow {
  import opened Wrappers

  // What a new workspace starts from: the source the window was opened with, or nothing.
  datatype Source = Opened(id: nat) | Empty

  type Handle = nat

  datatype Target = Workspace(args: Source) | Existing(handle: Handle)

  datatype Auth =
    | AuthScreen(args: Source)
    | ConfirmIncomingAuth(args: Source)
    | WebImport(target: Target)
    | NeedsSsoLink(target: Target)
    | Onboarding(target: Target)
    | LoginSlide(target: Target)
    | Terminal(handle: Handle)

  datatype Root = Root(auth: Auth, created: seq<Source>)

  // What the rest of the app knows when an event arrives.
  datatype Facts = Facts(
    needsSsoLink: Option<bool>, isOnboarded: Option<bool>, isAnonymous: Option<bool>,
    completedLocally: bool, agentOnboarding: bool, variantOne: bool, debugFeatures: bool)

  datatype Event =
    | AuthComplete(facts: Facts)
    | AuthFailed(reimport: bool)
    | SkippedLogin(facts: Facts)
    | LoginOverrideDetected
    | OverrideModalClosed
    | BackToOnboarding
    | LoginLaterConfirmed
    | OnboardingCompleted
    | OnboardingSkipped
    | PrivacySettingsRequested
    | LoginFromWelcomeRequested
    | DebugEnterOnboarding(facts: Facts)
    | WebHandoffUnsupported
    | LogOut

  function GetOr(o: Option<bool>, default: bool): bool {
    if o.Some? then o.value else default
  }

  // ----- transitions -----

  // Enter a workspace: the one that exists, or a new one.
  function Enter(r: Root, target: Target): Root {
    match target
    case Existing(handle) => r.(auth := Terminal(handle))
    case Workspace(args) => Root(Terminal(|r.created|), r.created + [args])
  }

  function TryOpenOnboarding(r: Root): Root {
    match r.auth
    case AuthScreen(args) => r.(auth := Onboarding(Workspace(args)))
    case ConfirmIncomingAuth(args) => r.(auth := Onboarding(Workspace(args)))
    case Terminal(handle) => r.(auth := Onboarding(Existing(handle)))
    case _ => r
  }

  predicate WantsOnboarding(facts: Facts) {
    && !GetOr(facts.isOnboarded, true) && !GetOr(facts.isAnonymous, false)
    && !facts.completedLocally && facts.agentOnboarding
  }

  function CompleteAuth(r: Root, facts: Facts): Root {
    var after := if WantsOnboarding(facts) then TryOpenOnboarding(r) else r;
    match after.auth
    case AuthScreen(args) => Enter(after, Workspace(args))
    case ConfirmIncomingAuth(args) => Enter(after, Workspace(args))
    case LoginSlide(target) => Enter(after, target)
    case _ => after
  }

  function ShowNeedsSsoLink(r: Root): Root {
    match r.auth
    case AuthScreen(args) => r.(auth := NeedsSsoLink(Workspace(args)))
    case ConfirmIncomingAuth(args) => r.(auth := NeedsSsoLink(Workspace(args)))
    case Terminal(handle) => r.(auth := NeedsSsoLink(Existing(handle)))
    case _ => r
  }

  function ShowWebHandoff(r: Root): Root {
    match r.auth
    case AuthScreen(args) => r.(auth := WebImport(Workspace(args)))
    case ConfirmIncomingAuth(args) => r.(auth := WebImport(Workspace(args)))
    case NeedsSsoLink(target) => r.(auth := WebImport(target))
    case Terminal(handle) => r.(auth := WebImport(Existing(handle)))
    case _ => r
  }

  function LoggedOut(r: Root): Root {
    match r.auth
    case ConfirmIncomingAuth(args) => r.(auth := AuthScreen(args))
    case NeedsSsoLink(Workspace(args)) => r.(auth := AuthScreen(args))
    case Terminal(_) => r.(auth := AuthScreen(Empty))
    case _ => r
  }

  // Completed authentication, before the first onboarding experiment has its say.
  function Authenticated(r: Root, facts: Facts, wasm: bool): Root {
    var first :=
      if facts.needsSsoLink == Some(true) then ShowNeedsSsoLink(r)
      else if r.auth.AuthScreen? || r.auth.ConfirmIncomingAuth? || r.auth.LoginSlide? then CompleteAuth(r, facts)
      else if r.auth.NeedsSsoLink? && facts.needsSsoLink == Some(false) then Enter(r, r.auth.target)
      else r;
    if wasm && first.auth.WebImport? then Enter(first, first.auth.target) else first
  }

  function AuthCompleted(r: Root, facts: Facts, wasm: bool): Root {
    var done := Authenticated(r, facts, wasm);
    if facts.variantOne then CompleteAuth(done, facts) else done
  }

  function Step(r: Root, event: Event, wasm: bool): Root {
    match event
    case AuthComplete(facts) => AuthCompleted(r, facts, wasm)
    case AuthFailed(reimport) => if wasm && reimport then ShowWebHandoff(r) else r
    case SkippedLogin(facts) =>
      if r.auth.AuthScreen? || r.auth.ConfirmIncomingAuth? then CompleteAuth(r, facts)
      else if r.auth.LoginSlide? then Enter(r, r.auth.target)
      else r
    case LoginOverrideDetected => if r.auth.AuthScreen? then r.(auth := ConfirmIncomingAuth(r.auth.args)) else r
    case OverrideModalClosed => if r.auth.ConfirmIncomingAuth? then LoggedOut(r) else r
    case BackToOnboarding => if r.auth.LoginSlide? then r.(auth := Onboarding(r.auth.target)) else r
    case LoginLaterConfirmed => if r.auth.LoginSlide? then Enter(r, r.auth.target) else r
    case OnboardingCompleted => if r.auth.Onboarding? then Enter(r, r.auth.target) else r
    case OnboardingSkipped => if r.auth.Onboarding? then Enter(r, r.auth.target) else r
    case PrivacySettingsRequested => if r.auth.Onboarding? then r.(auth := LoginSlide(r.auth.target)) else r
    case LoginFromWelcomeRequested => if r.auth.Onboarding? then r.(auth := LoginSlide(r.auth.target)) else r
    case DebugEnterOnboarding(facts) =>
      if facts.debugFeatures && facts.agentOnboarding then TryOpenOnboarding(r) else r
    case WebHandoffUnsupported =>
      if wasm && r.auth.WebImport? then
        match r.auth.target
        case Workspace(args) => r.(auth := AuthScreen(args))
        case Existing(handle) => r.(auth := Terminal(handle))
      else r
    case LogOut => LoggedOut(r)
  }

  function Start(source: Source, loggedIn: bool, wasm: bool, preLoginOnboarding: bool): Root {
    if loggedIn then Enter(Root(AuthScreen(source), []), Workspace(source))
    else if wasm then Root(WebImport(Workspace(source)), [])
    else if preLoginOnboarding then Root(Onboarding(Workspace(source)), [])
    else Enter(Root(AuthScreen(source), []), Workspace(source))
  }

  // ----- which workspace a state guards -----

  // The handle that a state holds, in Terminal or as its target.
  function Held(auth: Auth): Option<Handle> {
    match auth
    case AuthScreen(_) => None
    case ConfirmIncomingAuth(_) => None
    case Terminal(handle) => Some(handle)
    case WebImport(target) => HeldBy(target)
    case NeedsSsoLink(target) => HeldBy(target)
    case Onboarding(target) => HeldBy(target)
    case LoginSlide(target) => HeldBy(target)
  }

  function HeldBy(target: Target): Option<Handle> {
    if target.Existing? then Some(target.handle) else None
  }

  // What a workspace will be created from, in a state that holds none.
  function Pending(auth: Auth): Option<Source> {
    match auth
    case AuthScreen(args) => Some(args)
    case ConfirmIncomingAuth(args) => Some(args)
    case Terminal(_) => None
    case WebImport(target) => PendingIn(target)
    case NeedsSsoLink(target) => PendingIn(target)
    case Onboarding(target) => PendingIn(target)
    case LoginSlide(target) => PendingIn(target)
  }

  function PendingIn(target: Target): Option<Source> {
    if target.Workspace? then Some(target.args) else None
  }

  predicate LeavesWorkspace(r: Root, event: Event) {
    event.LogOut? && r.auth.Terminal?
  }

  // From r to r', a held handle is kept; without one, either the pending source is kept or a
  // workspace made from it is held afterwards.
  predicate KeepsOrCreates(r: Root, r': Root) {
    if Held(r.auth).Some? then Held(r'.auth) == Held(r.auth) && r'.created == r.created
    else
      || (r'.created == r.created && Held(r'.auth).None? && Pending(r'.auth) == Pending(r.auth))
      || (Pending(r.auth).Some? && r'.created == r.created + [Pending(r.auth).value]
          && Held(r'.auth) == Some(|r.created|))
  }

  lemma CompleteAuthMoves(r: Root, facts: Facts)
    ensures KeepsOrCreates(r, CompleteAuth(r, facts)) && KeepsOrCreates(r, TryOpenOnboarding(r))
  {
  }

  lemma AuthenticatedMoves(r: Root, facts: Facts, wasm: bool)
    ensures KeepsOrCreates(r, Authenticated(r, facts, wasm))
  {
    CompleteAuthMoves(r, facts);
  }

  lemma KeepsOrCreatesTransitive(r: Root, s: Root, t: Root)
    requires KeepsOrCreates(r, s) && KeepsOrCreates(s, t)
    ensures KeepsOrCreates(r, t)
  {
  }

  /** What any one event does to the workspace of a view.  A log-out from Terminal drops it, to
      start over from an empty source.  Every other event keeps a held handle and creates
      nothing; with none held, it keeps the pending source, or creates one workspace from it and
      holds that. */
  lemma OneStepOnWorkspaces(r: Root, event: Event, wasm: bool)
    ensures LeavesWorkspace(r, event) ==> Step(r, event, wasm) == Root(AuthScreen(Empty), r.created)
    ensures !LeavesWorkspace(r, event) ==> KeepsOrCreates(r, Step(r, event, wasm))
  {
    match event {
      case AuthComplete(facts) =>
        var done := Authenticated(r, facts, wasm);
        AuthenticatedMoves(r, facts, wasm);
        CompleteAuthMoves(done, facts);
        KeepsOrCreatesTransitive(r, done, CompleteAuth(done, facts));
      case SkippedLogin(facts) => CompleteAuthMoves(r, facts);
      case DebugEnterOnboarding(facts) => CompleteAuthMoves(r, facts);
      case _ =>
    }
  }

  // ----- runs -----

  function Run(start: Root, events: seq<Event>, wasm: bool): Root {
    if events == [] then start
    else Step(Run(start, events[..|events| - 1], wasm), events[|events| - 1], wasm)
  }

  // How many log-outs of the run left a workspace behind.
  function Departures(start: Root, events: seq<Event>, wasm: bool): nat {
    if events == [] then 0
    else
      var init := events[..|events| - 1];
      Departures(start, init, wasm) + if LeavesWorkspace(Run(start, init, wasm), events[|events| - 1]) then 1 else 0
  }

  // Of the workspaces created, all but the one now held were left; the first came from `source`
  // and the others from nothing, as the next one will.
  ghost predicate Conserved(r: Root, gone: nat, source: Source) {
    && |r.created| == gone + (if Held(r.auth).Some? then 1 else 0)
    && (Held(r.auth).Some? ==> Held(r.auth) == Some(gone))
    && (Held(r.auth).None? ==> Pending(r.auth) == Some(if gone == 0 then source else Empty))
    && forall i :: 0 <= i < |r.created| ==> r.created[i] == if i == 0 then source else Empty
  }

  lemma {:induction false} StepConserves(r: Root, event: Event, wasm: bool, gone: nat, source: Source)
    requires Conserved(r, gone, source)
    ensures Conserved(Step(r, event, wasm), gone + (if LeavesWorkspace(r, event) then 1 else 0), source)
  {
    OneStepOnWorkspaces(r, event, wasm);
  }

  lemma {:induction false} RunConserves(start: Root, source: Source, events: seq<Event>, wasm: bool)
    requires Conserved(start, 0, source)
    ensures Conserved(Run(start, events, wasm), Departures(start, events, wasm), source)
  {
    if events != [] {
      var init := events[..|events| - 1];
      RunConserves(start, source, init, wasm);
      StepConserves(Run(start, init, wasm), events[|events| - 1], wasm, Departures(start, init, wasm), source);
    }
  }

  /** Over any run, every workspace ever created is either the one now held, which is the newest,
      or was left by a log-out.  The first came from what the window was opened with, and each
      later one from an empty source. */
  lemma {:induction false} WorkspacesAreConserved(source: Source, loggedIn: bool, onboard: bool,
          events: seq<Event>, wasm: bool)
    ensures var start := Start(source, loggedIn, wasm, onboard);
            Conserved(Run(start, events, wasm), Departures(start, events, wasm), source)
  {
    RunConserves(Start(source, loggedIn, wasm, onboard), source, events, wasm);
  }

  /** Once held, a workspace is kept for good, and no other is created, as long as no log-out
      leaves it. */
  lemma {:induction false} HandleSurvives(start: Root, events: seq<Event>, wasm: bool)
    requires Held(start.auth).Some? && Departures(start, events, wasm) == 0
    ensures var r := Run(start, events, wasm); Held(r.auth) == Held(start.auth) && r.created == start.created
  {
    if events != [] {
      var init := events[..|events| - 1];
      HandleSurvives(start, init, wasm);
      OneStepOnWorkspaces(Run(start, init, wasm), events[|events| - 1], wasm);
    }
  }

  // ----- which screen comes next -----

  datatype Screen = AtAuth | AtConfirm | AtImport | AtSsoLink | AtOnboarding | AtLoginSlide | InTerminal

  function ScreenOf(auth: Auth): Screen {
    match auth
    case AuthScreen(_) => AtAuth
    case ConfirmIncomingAuth(_) => AtConfirm
    case WebImport(_) => AtImport
    case NeedsSsoLink(_) => AtSsoLink
    case Onboarding(_) => AtOnboarding
    case LoginSlide(_) => AtLoginSlide
    case Terminal(_) => InTerminal
  }

  // The server knows the user as not yet onboarded and does not call them anonymous, they have not
  // finished onboarding on this machine, and it is available.
  predicate Offered(facts: Facts) {
    && facts.isOnboarded == Some(false) && facts.isAnonymous != Some(true)
    && !facts.completedLocally && facts.agentOnboarding
  }

  // Completed authentication lets this screen into its workspace before the onboarding experiment
  // has its say.
  predicate LetsIn(screen: Screen, facts: Facts, wasm: bool) {
    || (wasm && screen == AtImport)
    || (screen == AtLoginSlide && facts.needsSsoLink != Some(true))
    || (screen == AtSsoLink && facts.needsSsoLink == Some(false))
  }

  // This event leads from one screen to that other one.
  predicate Leads(auth: Auth, event: Event, to: Screen, wasm: bool) {
    var from := ScreenOf(auth);
    match to
    case AtAuth =>
      || (event == OverrideModalClosed && from == AtConfirm)
      || (event == LogOut && (from in {AtConfirm, InTerminal} || (from == AtSsoLink && auth.target.Workspace?)))
      || (event == WebHandoffUnsupported && wasm && from == AtImport && auth.target.Workspace?)
    case AtConfirm => event == LoginOverrideDetected && from == AtAuth
    case AtImport => event == AuthFailed(true) && wasm && from in {AtAuth, AtConfirm, AtSsoLink, InTerminal}
    case AtSsoLink =>
      event.AuthComplete? && event.facts.needsSsoLink == Some(true) && from in {AtAuth, AtConfirm, InTerminal}
    case AtLoginSlide => event in {PrivacySettingsRequested, LoginFromWelcomeRequested} && from == AtOnboarding
    case AtOnboarding =>
      (match event
       case BackToOnboarding => from == AtLoginSlide
       case SkippedLogin(facts) => Offered(facts) && from in {AtAuth, AtConfirm}
       case DebugEnterOnboarding(facts) =>
         facts.debugFeatures && facts.agentOnboarding && from in {AtAuth, AtConfirm, InTerminal}
       case AuthComplete(facts) =>
         && Offered(facts)
         && if LetsIn(from, facts, wasm) then facts.variantOne
            else
              && facts.needsSsoLink != Some(true)
              && (from in {AtAuth, AtConfirm} || (facts.variantOne && from == InTerminal))
       case _ => false)
    case InTerminal =>
      (match event
       case LoginLaterConfirmed => from == AtLoginSlide
       case OnboardingCompleted => from == AtOnboarding
       case OnboardingSkipped => from == AtOnboarding
       case WebHandoffUnsupported => wasm && from == AtImport && auth.target.Existing?
       case SkippedLogin(facts) => from == AtLoginSlide || (from in {AtAuth, AtConfirm} && !Offered(facts))
       case AuthComplete(facts) =>
         if LetsIn(from, facts, wasm) then !(facts.variantOne && Offered(facts))
         else
           || (from == AtLoginSlide && facts.variantOne)
           || (from in {AtAuth, AtConfirm} && facts.needsSsoLink != Some(true) && !Offered(facts))
       case _ => false)
  }

  /** The ways to each screen: one event takes a view to another screen exactly along one of them, so
      on every other event it stays where it is. */
  lemma ScreenChangesIff(r: Root, event: Event, wasm: bool, to: Screen)
    requires to != ScreenOf(r.auth)
    ensures ScreenOf(Step(r, event, wasm).auth) == to <==> Leads(r.auth, event, to, wasm)
  {
    if event.AuthComplete? { AuthCompletedLeads(r, event.facts, wasm, to); }
  }

  lemma AuthCompletedLeads(r: Root, facts: Facts, wasm: bool, to: Screen)
    requires to != ScreenOf(r.auth)
    ensures ScreenOf(AuthCompleted(r, facts, wasm).auth) == to <==> Leads(r.auth, AuthComplete(facts), to, wasm)
  {
    assert WantsOnboarding(facts) <==> Offered(facts);
  }

  /** A new workspace is made exactly when none is held and the view enters one, or would have but for
      the onboarding experiment, which then keeps the new one waiting behind onboarding. */
  lemma CreatesIff(r: Root, event: Event, wasm: bool)
    ensures var r' := Step(r, event, wasm);
            |r'.created| > |r.created| <==>
              && Held(r.auth).None?
              && (r'.auth.Terminal? || (event.AuthComplete? && LetsIn(ScreenOf(r.auth), event.facts, wasm)))
  {
    OneStepOnWorkspaces(r, event, wasm);
    if event.AuthComplete? { AuthCompletedCreates(r, event.facts, wasm); }
  }

  lemma AuthCompletedCreates(r: Root, facts: Facts, wasm: bool)
    ensures var r' := AuthCompleted(r, facts, wasm);
            |r'.created| > |r.created| <==>
              Held(r.auth).None? && (r'.auth.Terminal? || LetsIn(ScreenOf(r.auth), facts, wasm))
  {
  }

  /** A view opens in a workspace when logged in, or when neither the web nor onboarding comes first. */
  lemma FirstScreen(source: Source, loggedIn: bool, wasm: bool, onboard: bool)
    ensures var first := Start(source, loggedIn, wasm, onboard);
            && (ScreenOf(first.auth) == InTerminal <==> loggedIn || !(wasm || onboard))
            && (ScreenOf(first.auth) == AtImport <==> !loggedIn && wasm)
            && (ScreenOf(first.auth) == AtOnboarding <==> !loggedIn && !wasm && onboard)
  {
  }

  // Moving between onboarding and the login slide.
  predicate Detours(event: Event) {
    event in {PrivacySettingsRequested, LoginFromWelcomeRequested, BackToOnboarding}
  }

  function OnDetour(start: Root, target: Target, onSlide: bool): Root {
    start.(auth := if onSlide then LoginSlide(target) else Onboarding(target))
  }

  lemma DetourStep(start: Root, target: Target, onSlide: bool, event: Event, wasm: bool)
    requires Detours(event)
    ensures Step(OnDetour(start, target, onSlide), event, wasm) == OnDetour(start, target, event != BackToOnboarding)
  {
  }

  lemma DetourEnds(start: Root, target: Target, onSlide: bool, wasm: bool)
    requires start.auth == Onboarding(target)
    ensures Step(OnDetour(start, target, onSlide), if onSlide then LoginLaterConfirmed else OnboardingCompleted, wasm)
         == Enter(start, target)
  {
  }

  predicate EndsOnSlide(events: seq<Event>) {
    events != [] && events[|events| - 1] != BackToOnboarding
  }

  lemma {:induction false} DetourRun(start: Root, target: Target, events: seq<Event>, wasm: bool)
    requires start.auth == Onboarding(target) && forall e :: e in events ==> Detours(e)
    ensures Run(start, events, wasm) == OnDetour(start, target, EndsOnSlide(events))
  {
    if events == [] {
      assert OnDetour(start, target, false) == start;
    } else {
      var init, last := events[..|events| - 1], events[|events| - 1];
      assert last in events && forall e :: e in init ==> e in events;
      DetourRun(start, target, init, wasm);
      DetourStep(start, target, EndsOnSlide(init), last, wasm);
    }
  }

  /** Onboarding and the login slide are one detour: over any run of such moves the view is on the login
      slide exactly if the last one led there, with the same target and nothing created; and from
      either screen the way into the workspace is the same. */
  lemma LoginSlideIsADetour(start: Root, events: seq<Event>, wasm: bool)
    requires start.auth.Onboarding? && forall e :: e in events ==> Detours(e)
    ensures var r, target := Run(start, events, wasm), start.auth.target;
            && r == start.(auth := if EndsOnSlide(events) then LoginSlide(target) else Onboarding(target))
            && Step(r, if EndsOnSlide(events) then LoginLaterConfirmed else OnboardingCompleted, wasm)
               == Enter(start, target)
  {
    DetourRun(start, start.auth.target, events, wasm);
    DetourEnds(start, start.auth.target, EndsOnSlide(events), wasm);
  }

  /** When authentication completes and single sign-on is still to be linked, the view ends up
      blocked on that exactly when it was not importing, onboarding or on the login slide.  It even
      ends up in a workspace exactly on two ways round: from the login slide in the first onboarding
      experiment, and from a web import, unless that experiment sends it to onboarding. */
  lemma SsoBlocksIff(r: Root, facts: Facts, wasm: bool)
    requires facts.needsSsoLink == Some(true)
    ensures var r' := Step(r, AuthComplete(facts), wasm);
            && (r'.auth.NeedsSsoLink? <==> !r.auth.WebImport? && !r.auth.Onboarding? && !r.auth.LoginSlide?)
            && (r'.auth.Terminal? <==>
                  || (facts.variantOne && r.auth.LoginSlide?)
                  || (wasm && r.auth.WebImport? && !(facts.variantOne && Offered(facts))))
  {
  }

  /** A view that opens on onboarding and learns there that the link is missing, whatever else it
      learns, still enters a workspace when onboarding ends. */
  lemma OnboardingOutlastsSso(source: Source, facts: Facts)
    requires facts.needsSsoLink == Some(true)
    ensures var start := Start(source, false, false, true);
            Run(start, [AuthComplete(facts), OnboardingCompleted], false) == Root(Terminal(0), [source])
  {
    var start := Start(source, false, false, true);
    assert [AuthComplete(facts), OnboardingCompleted][..1] == [AuthComplete(facts)] && [AuthComplete(facts)][..0] == [];
    assert Run(start, [AuthComplete(facts)], false) == start;
  }

  // The event takes a view that is blocked on single sign-on somewhere else.
  predicate Unblocks(target: Target, event: Event, wasm: bool) {
    match event
    case AuthComplete(facts) => facts.needsSsoLink == Some(false)
    case AuthFailed(reimport) => wasm && reimport
    case LogOut => target.Workspace?
    case _ => false
  }

  predicate NoneUnblocks(target: Target, events: seq<Event>, wasm: bool) {
    forall e :: e in events ==> !Unblocks(target, e, wasm)
  }

  ghost predicate StaysAt(start: Root, events: seq<Event>, wasm: bool) {
    forall k :: 0 <= k <= |events| ==> Run(start, events[..k], wasm) == start
  }

  lemma StaysAtSnoc(start: Root, init: seq<Event>, last: Event, wasm: bool)
    ensures StaysAt(start, init + [last], wasm) <==> StaysAt(start, init, wasm) && Step(start, last, wasm) == start
  {
    var events := init + [last];
    assert forall k :: 0 <= k <= |init| ==> init[..k] == events[..k];
    assert events[..|events|] == events && init[..|init|] == init && events[..|init|] == init;
    if StaysAt(start, events, wasm) {
      assert Run(start, events[..|init|], wasm) == start && Run(start, events[..|events|], wasm) == start;
    }
    if StaysAt(start, init, wasm) {
      assert Run(start, init[..|init|], wasm) == start;
    }
  }

  /** A view blocked on single sign-on stays just so all through a run exactly when no
      authentication reports the link as made, no log-out comes while there is no workspace, and
      no failed re-import sends it to the web import. */
  lemma {:induction false} StaysBlockedIff(start: Root, events: seq<Event>, wasm: bool)
    requires start.auth.NeedsSsoLink?
    ensures StaysAt(start, events, wasm) <==> NoneUnblocks(start.auth.target, events, wasm)
  {
    if events != [] {
      var init, last := events[..|events| - 1], events[|events| - 1];
      assert events == init + [last];
      StaysBlockedIff(start, init, wasm);
      StaysAtSnoc(start, init, last, wasm);
      assert Step(start, last, wasm) == start <==> !Unblocks(start.auth.target, last, wasm);
    }
  }
}
