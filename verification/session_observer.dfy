/** The personalised page: it keeps the current session, its user, the
    profile's full name and a `loading` flag, and updates them from two
    concurrent sources (auth-change notifications and the one-shot
    `getSession` query), from profile-fetch results and from sign-out.

    The page is modelled as a reducer over a sequence of events, so every
    interleaving the runtime can produce is one sequence. A notification
    with a user schedules its profile fetch with `setTimeout(…, 0)`; that
    deferral is a FIFO queue of pending user ids, drained one id per
    `DeferredFetchRuns` event. Started fetches, navigations and toasts are
    recorded in logs. */
module SessionObserver {
  import opened Common

  type UserId = string

  /** The authenticated principal as the page sees it. */
  datatype User = User(id: UserId, email: string)

  /** A session from the provider; the page reads only its user, which it
      treats as possibly absent (`session?.user`). */
  datatype Session = Session(accessToken: string, user: Option<User>)

  /** The kinds of auth-change notification; the handler ignores the kind. */
  datatype AuthEventKind = InitialSession | SignedIn | SignedOut | TokenRefreshed | UserUpdated | PasswordRecovery

  /** How one profile query ended: a record came back, no record matched,
      the query returned an error, or the awaited call threw. */
  datatype ProfileReply = Found(fullName: string) | NotFound | QueryFailed | QueryThrew

  /** Whether the awaited `signOut` call returned or threw. */
  datatype SignOutReply = SignOutReturned | SignOutThrew

  datatype Event =
    | AuthChange(kind: AuthEventKind, session: Option<Session>)
    | InitialSessionResolved(session: Option<Session>)
    | DeferredFetchRuns
    | ProfileArrived(reply: ProfileReply)
    | SignOutClicked(outcome: SignOutReply)

  /** The page state, plus the logs of started profile fetches (by user
      id), navigations and toasts. */
  datatype Page = Page(
    session: Option<Session>, user: Option<User>, fullName: string, loading: bool,
    pending: seq<UserId>, fetches: seq<UserId>, navigations: seq<Path>, toasts: seq<Toast>)

  /** The page as mounted: no session, no name, `loading` set. */
  const Initial := Page(None, None, "", true, [], [], [], [])

  const SignedOutText := "Sesión cerrada exitosamente"
  const SignOutFailedText := "Error al cerrar sesión"
  const FallbackName := "Usuario"

  /** `session?.user ?? null`. */
  function UserOf(session: Option<Session>): Option<User> {
    if session.Some? then session.value.user else None
  }

  /** The user shown is the user of the current session. */
  predicate UserMatchesSession(p: Page) {
    p.user == UserOf(p.session)
  }

  /** The page differs from `q` at most in its full name. */
  predicate SameExceptName(p: Page, q: Page) {
    p.(fullName := q.fullName) == q
  }

  // ---------------------------------------------------------------------
  // Event handlers

  /** The auth-change listener: adopts the notified session and its user;
      with a user it queues one deferred profile fetch for that id instead
      of fetching inline. It never navigates, never starts a fetch itself
      and never touches `loading`. */
  function OnAuthChange(p: Page, kind: AuthEventKind, session: Option<Session>): (q: Page)
    ensures q.session == session && UserMatchesSession(q)
    ensures UserOf(session).Some? ==> q.pending == p.pending + [UserOf(session).value.id]
    ensures UserOf(session).None? ==> q.pending == p.pending
    ensures q.loading == p.loading && q.fetches == p.fetches && q.navigations == p.navigations
    ensures q.fullName == p.fullName && q.toasts == p.toasts
  {
    var user := UserOf(session);
    var pending := if user.Some? then p.pending + [user.value.id] else p.pending;
    p.(session := session, user := user, pending := pending)
  }

  /** The `getSession` continuation: adopts the session and its user; with
      a user it starts one fetch for that id at once, without one it
      redirects to the credential page; either way `loading` is cleared. */
  function OnInitialSession(p: Page, session: Option<Session>): (q: Page)
    ensures q.session == session && UserMatchesSession(q) && !q.loading
    ensures UserOf(session).Some? ==>
      q.fetches == p.fetches + [UserOf(session).value.id] && q.navigations == p.navigations
    ensures UserOf(session).None? ==>
      q.fetches == p.fetches && q.navigations == p.navigations + [AuthPath]
    ensures q.pending == p.pending && q.fullName == p.fullName && q.toasts == p.toasts
  {
    var user := UserOf(session);
    var settled := p.(session := session, user := user, loading := false);
    if user.Some? then settled.(fetches := p.fetches + [user.value.id])
    else settled.(navigations := p.navigations + [AuthPath])
  }

  /** The oldest pending `setTimeout` callback runs and starts its fetch;
      with nothing pending there is no callback and nothing happens. */
  function OnDeferredFetch(p: Page): (q: Page)
    ensures p.pending == [] ==> q == p
    ensures p.pending != [] ==>
      && q.fetches == p.fetches + [p.pending[0]]
      && p.pending == [p.pending[0]] + q.pending
      && q.(pending := p.pending, fetches := p.fetches) == p
  {
    if p.pending == [] then p
    else p.(pending := p.pending[1..], fetches := p.fetches + [p.pending[0]])
  }

  /** `fetchUserProfile`'s result: a returned record sets the full name;
      an error, a throw or a missing record leaves it as it was. Nothing
      but the name ever changes. */
  function OnProfile(p: Page, reply: ProfileReply): (q: Page)
    ensures SameExceptName(q, p)
    ensures reply.Found? ==> q.fullName == reply.fullName
    ensures !reply.Found? ==> q == p
  {
    match reply
    case Found(name) => p.(fullName := name)
    case _ => p
  }

  /** `handleSignOut`: when the call returns, a success toast and a
      redirect to the credential page; when it throws, an error toast and
      no redirect. The session itself is left to the listener. */
  function OnSignOut(p: Page, outcome: SignOutReply): (q: Page)
    ensures outcome.SignOutReturned? ==>
      q.toasts == p.toasts + [SuccessToast(SignedOutText)] && q.navigations == p.navigations + [AuthPath]
    ensures outcome.SignOutThrew? ==>
      q.toasts == p.toasts + [ErrorToast(SignOutFailedText)] && q.navigations == p.navigations
    ensures q.(toasts := p.toasts, navigations := p.navigations) == p
  {
    match outcome
    case SignOutReturned => p.(toasts := p.toasts + [SuccessToast(SignedOutText)], navigations := p.navigations + [AuthPath])
    case SignOutThrew => p.(toasts := p.toasts + [ErrorToast(SignOutFailedText)])
  }

  function Step(p: Page, e: Event): Page {
    match e
    case AuthChange(kind, session) => OnAuthChange(p, kind, session)
    case InitialSessionResolved(session) => OnInitialSession(p, session)
    case DeferredFetchRuns => OnDeferredFetch(p)
    case ProfileArrived(reply) => OnProfile(p, reply)
    case SignOutClicked(outcome) => OnSignOut(p, outcome)
  }

  /** The page after handling `events` in order. */
  function Run(p: Page, events: seq<Event>): Page
    decreases |events|
  {
    if events == [] then p else Run(Step(p, events[0]), events[1..])
  }

  // ---------------------------------------------------------------------
  // Rendering

  /** What the page renders. */
  datatype View = Spinner | Nothing | Greeting(name: string)

  /** `fullName || "Usuario"`: never empty, and the profile's name whenever
      there is one. */
  function GreetingName(fullName: string): (name: string)
    ensures name != []
    ensures fullName != [] ==> name == fullName
    ensures fullName == [] ==> name == FallbackName
  {
    if fullName != [] then fullName else FallbackName
  }

  /** The spinner while `loading`, then nothing without a user, then the
      greeting. */
  function Render(p: Page): (v: View)
    ensures v.Spinner? <==> p.loading
    ensures v.Nothing? <==> !p.loading && p.user.None?
    ensures v.Greeting? ==> v.name == GreetingName(p.fullName)
  {
    if p.loading then Spinner
    else if p.user.None? then Nothing
    else Greeting(GreetingName(p.fullName))
  }

  // ---------------------------------------------------------------------
  // Properties over arbitrary interleavings

  /** Events that overwrite the session. */
  predicate WritesSession(e: Event) {
    e.AuthChange? || e.InitialSessionResolved?
  }

  /** The user shown always belongs to the current session. */
  lemma {:induction false} RunKeepsUserMatchingSession(p: Page, events: seq<Event>)
    requires UserMatchesSession(p)
    ensures UserMatchesSession(Run(p, events))
    decreases |events|
  {
    if events != [] {
      RunKeepsUserMatchingSession(Step(p, events[0]), events[1..]);
    }
  }

  /** Events that do not write the session leave session and user alone. */
  lemma {:induction false} SessionKeptWithoutWrites(p: Page, events: seq<Event>)
    requires forall j | 0 <= j < |events| :: !WritesSession(events[j])
    ensures Run(p, events).session == p.session && Run(p, events).user == p.user
    decreases |events|
  {
    if events != [] {
      assert !WritesSession(events[0]);
      SessionKeptWithoutWrites(Step(p, events[0]), events[1..]);
    }
  }

  /** Last write wins: after any interleaving, the session is the one
      carried by the latest notification or initial resolution. */
  lemma {:induction false} LastSessionWriteWins(p: Page, events: seq<Event>, i: int)
    requires 0 <= i < |events| && WritesSession(events[i])
    requires forall j | i < j < |events| :: !WritesSession(events[j])
    ensures Run(p, events).session == events[i].session
    decreases |events|
  {
    var rest := events[1..];
    if i == 0 {
      SessionKeptWithoutWrites(Step(p, events[0]), rest);
    } else {
      LastSessionWriteWins(Step(p, events[0]), rest, i - 1);
    }
  }

  /** `loading` ends up false exactly when it already was or the initial
      query resolved somewhere in the run; nothing else clears it and
      nothing sets it again. */
  lemma {:induction false} LoadingClearedOnlyByInitialSession(p: Page, events: seq<Event>)
    ensures Run(p, events).loading <==>
      p.loading && forall j | 0 <= j < |events| :: !events[j].InitialSessionResolved?
    decreases |events|
  {
    if events != [] {
      LoadingClearedOnlyByInitialSession(Step(p, events[0]), events[1..]);
      assert forall j | 1 <= j < |events| :: events[1..][j - 1] == events[j];
    }
  }

  /** Events that redirect to the credential page: an initial query that
      finds no user, and a sign-out whose call returned. */
  predicate Redirects(e: Event) {
    || (e.InitialSessionResolved? && UserOf(e.session).None?)
    || (e.SignOutClicked? && e.outcome.SignOutReturned?)
  }

  function RedirectCount(events: seq<Event>): nat
    decreases |events|
  {
    if events == [] then 0
    else (if Redirects(events[0]) then 1 else 0) + RedirectCount(events[1..])
  }

  /** Every navigation the page makes is to the credential page, one per
      redirecting event and none otherwise; in particular no auth-change
      notification ever navigates. */
  lemma {:induction false} NavigationsAreRedirects(p: Page, events: seq<Event>)
    ensures var q := Run(p, events);
      && |q.navigations| == |p.navigations| + RedirectCount(events)
      && q.navigations[..|p.navigations|] == p.navigations
      && forall k | |p.navigations| <= k < |q.navigations| :: q.navigations[k] == AuthPath
    decreases |events|
  {
    if events != [] {
      var p' := Step(p, events[0]);
      StepNavigations(p, events[0]);
      NavigationsAreRedirects(p', events[1..]);
      var q := Run(p, events);
      assert q == Run(p', events[1..]);
      PrefixOfPrefix(p.navigations, p'.navigations, q.navigations);
    }
  }

  /** One event adds one navigation to the credential page if it redirects,
      and none otherwise. */
  lemma StepNavigations(p: Page, e: Event)
    ensures var n := Step(p, e).navigations;
      && |n| == |p.navigations| + (if Redirects(e) then 1 else 0)
      && n[..|p.navigations|] == p.navigations
      && forall k | |p.navigations| <= k < |n| :: n[k] == AuthPath
  {
  }

  /** A prefix of a prefix is a prefix. */
  lemma PrefixOfPrefix<T>(a: seq<T>, b: seq<T>, c: seq<T>)
    requires |a| <= |b| <= |c| && b[..|a|] == a && c[..|b|] == b
    ensures c[..|a|] == a
  {
  }

  /** The run with every profile result removed. */
  function WithoutProfiles(events: seq<Event>): (r: seq<Event>)
    ensures |r| <= |events|
    ensures forall j | 0 <= j < |r| :: !r[j].ProfileArrived?
    decreases |events|
  {
    if events == [] then []
    else if events[0].ProfileArrived? then WithoutProfiles(events[1..])
    else [events[0]] + WithoutProfiles(events[1..])
  }

  /** Profile results touch nothing but the full name: two pages that agree
      on everything else still agree after the same run, even when one of
      them never receives the profile results. So the session, the user,
      `loading`, the fetch queue and every log are decided by the other
      events alone. */
  lemma {:induction false} ProfilesOnlyTouchName(p1: Page, p2: Page, events: seq<Event>)
    requires SameExceptName(p1, p2)
    ensures SameExceptName(Run(p1, events), Run(p2, WithoutProfiles(events)))
    decreases |events|
  {
    if events != [] {
      var e := events[0];
      if e.ProfileArrived? {
        ProfilesOnlyTouchName(Step(p1, e), p2, events[1..]);
      } else {
        assert SameExceptName(Step(p1, e), Step(p2, e));
        ProfilesOnlyTouchName(Step(p1, e), Step(p2, e), events[1..]);
      }
    }
  }

  /** Events that set the full name: a profile query that returned a record. */
  predicate SetsName(e: Event) {
    e.ProfileArrived? && e.reply.Found?
  }

  /** Without a returned profile record the full name never changes. */
  lemma {:induction false} NameKeptWithoutRecords(p: Page, events: seq<Event>)
    requires forall j | 0 <= j < |events| :: !SetsName(events[j])
    ensures Run(p, events).fullName == p.fullName
    decreases |events|
  {
    if events != [] {
      assert !SetsName(events[0]);
      NameKeptWithoutRecords(Step(p, events[0]), events[1..]);
    }
  }

  /** The full name is the one in the latest returned profile record. */
  lemma {:induction false} LastRecordNameWins(p: Page, events: seq<Event>, i: int)
    requires 0 <= i < |events| && SetsName(events[i])
    requires forall j | i < j < |events| :: !SetsName(events[j])
    ensures Run(p, events).fullName == events[i].reply.fullName
    decreases |events|
  {
    if i == 0 {
      NameKeptWithoutRecords(Step(p, events[0]), events[1..]);
    } else {
      LastRecordNameWins(Step(p, events[0]), events[1..], i - 1);
    }
  }

  /** The ids one event adds to the fetch queue or the fetch log. */
  function UsersOf(e: Event): seq<UserId> {
    if WritesSession(e) && UserOf(e.session).Some? then [UserOf(e.session).value.id] else []
  }

  /** Ids of the users the session-writing events carry, in order. */
  function SessionUsers(events: seq<Event>): seq<UserId>
    decreases |events|
  {
    if events == [] then [] else UsersOf(events[0]) + SessionUsers(events[1..])
  }

  /** One event either moves a queued id to the fetch log or adds the ids
      it carries. */
  lemma StepAccountsForUsers(p: Page, e: Event)
    ensures var q := Step(p, e);
      multiset(q.pending) + multiset(q.fetches) == multiset(p.pending) + multiset(p.fetches) + multiset(UsersOf(e))
  {
  }

  /** No profile fetch is lost or invented: every user a notification or
      the initial query brings is either still queued or has had its fetch
      started, and every fetch started or queued came from such an event. */
  lemma {:induction false} FetchesAccountForSessionUsers(p: Page, events: seq<Event>)
    ensures var q := Run(p, events);
      multiset(q.pending) + multiset(q.fetches)
        == multiset(p.pending) + multiset(p.fetches) + multiset(SessionUsers(events))
    decreases |events|
  {
    if events != [] {
      var p' := Step(p, events[0]);
      StepAccountsForUsers(p, events[0]);
      FetchesAccountForSessionUsers(p', events[1..]);
      assert multiset(SessionUsers(events)) == multiset(UsersOf(events[0])) + multiset(SessionUsers(events[1..]));
    }
  }

  /** Until the initial query resolves the page shows the spinner, whatever
      notifications or profile results arrive. */
  lemma SpinnerUntilInitialSession(events: seq<Event>)
    requires forall j | 0 <= j < |events| :: !events[j].InitialSessionResolved?
    ensures Render(Run(Initial, events)) == Spinner
  {
    LoadingClearedOnlyByInitialSession(Initial, events);
  }

  /** Profile results never change which of spinner, nothing or greeting
      the page shows; they can change only the name in the greeting. */
  lemma ProfilesKeepViewKind(events: seq<Event>)
    ensures var v1, v2 := Render(Run(Initial, events)), Render(Run(Initial, WithoutProfiles(events)));
      v1.Spinner? == v2.Spinner? && v1.Nothing? == v2.Nothing? && v1.Greeting? == v2.Greeting?
  {
    ProfilesOnlyTouchName(Initial, Initial, events);
  }

  /** The notification kind plays no part in the listener. */
  lemma AuthEventKindIgnored(p: Page, k1: AuthEventKind, k2: AuthEventKind, session: Option<Session>)
    ensures Step(p, AuthChange(k1, session)) == Step(p, AuthChange(k2, session))
  {
  }

  // ---------------------------------------------------------------------
  // Sample runs

  /** A run of two events is the two handlers applied in turn. */
  lemma RunTwo(p: Page, events: seq<Event>)
    requires |events| == 2
    ensures Run(p, events) == Step(Step(p, events[0]), events[1])
  {
    var p1 := Step(p, events[0]);
    assert events[1..] == [events[1]];
    assert Run(p1, [events[1]]) == Run(Step(p1, events[1]), []);
  }

  /** No session at start-up: one redirect to the credential page, no
      profile fetch, and after loading the page renders nothing. */
  lemma NoSessionAtStartup()
    ensures var q := Run(Initial, [InitialSessionResolved(None)]);
      q.navigations == [AuthPath] && q.fetches == [] && q.pending == [] && Render(q) == Nothing
  {
  }

  /** A notification and the initial query that disagree: the initial query
      resolves last with no session, so the page ends signed out and
      redirects, although the notification's deferred fetch is still queued. */
  lemma InitialQueryResolvesLast(kind: AuthEventKind, s: Session, u: User)
    requires s.user == Some(u)
    ensures var q := Run(Initial, [AuthChange(kind, Some(s)), InitialSessionResolved(None)]);
      && q.session == None && Render(q) == Nothing
      && q.navigations == [AuthPath] && q.pending == [u.id]
  {
    var events := [AuthChange(kind, Some(s)), InitialSessionResolved(None)];
    RunTwo(Initial, events);
  }

  /** The same disagreement the other way round: the initial query finds no
      session and redirects, then a notification with a user arrives. The
      redirect stays in the log. The redirect unmounts the real page, which
      unsubscribes the listener, so the signed-in state with the fallback
      greeting is what the handlers would produce, not what the user sees. */
  lemma NotificationArrivesLast(kind: AuthEventKind, s: Session, u: User)
    requires s.user == Some(u)
    ensures var q := Run(Initial, [InitialSessionResolved(None), AuthChange(kind, Some(s))]);
      && q.session == Some(s) && Render(q) == Greeting(FallbackName)
      && q.navigations == [AuthPath] && q.pending == [u.id]
  {
    var events := [InitialSessionResolved(None), AuthChange(kind, Some(s))];
    RunTwo(Initial, events);
  }
}
