/** The credential page: the ordered form validator, the submission handler
    that turns the identity provider's reply into toasts, a navigation, a mode
    change and the final in-flight flag, and the two mode buttons. The
    provider itself is not modelled; its reply is an input. */
module AuthForm {
  import opened Common
  import opened Text
  import opened EmailPattern

  /** The page's `isLogin` flag; the page opens in sign-up mode. */
  datatype Mode = SignUp | Login

  /** The page's state: the mode, the three input fields and `loading`. */
  datatype AuthPage = AuthPage(mode: Mode, email: string, password: string, fullName: string, loading: bool)

  /** The page as it opens: sign-up mode, empty fields, nothing in flight. */
  const InitialPage := AuthPage(SignUp, "", "", "", false)

  const MinPasswordLength := 6

  /** The five checks of the validator, listed in the order it makes them. */
  datatype Rule = EmailRequired | EmailWellFormed | PasswordRequired | PasswordLongEnough | FullNameRequired

  /** Position of a rule in the validator's order. */
  function Rank(rule: Rule): nat {
    match rule
    case EmailRequired => 0
    case EmailWellFormed => 1
    case PasswordRequired => 2
    case PasswordLongEnough => 3
    case FullNameRequired => 4
  }

  /** Whether the page's fields violate `rule`, judged on that rule alone.
      The pattern is tested on the `email` value untrimmed. */
  predicate Breaks(p: AuthPage, rule: Rule) {
    match rule
    case EmailRequired => IsBlank(p.email)
    case EmailWellFormed => !MatchesEmailRegex(p.email)
    case PasswordRequired => IsBlank(p.password)
    case PasswordLongEnough => |p.password| < MinPasswordLength
    case FullNameRequired => p.mode == SignUp && IsBlank(p.fullName)
  }

  /** The toast the validator raises for a violated rule. */
  function RuleMessage(rule: Rule): string {
    match rule
    case EmailRequired => "Por favor ingresa tu email"
    case EmailWellFormed => "Por favor ingresa un email válido"
    case PasswordRequired => "Por favor ingresa tu contraseña"
    case PasswordLongEnough => "La contraseña debe tener al menos 6 caracteres"
    case FullNameRequired => "Por favor ingresa tu nombre completo"
  }

  datatype Verdict = Valid | Invalid(rule: Rule)

  /** `validateForm`: the form is valid exactly when it breaks no rule, and
      otherwise the one rule reported is the first one broken. */
  function Validate(p: AuthPage): (v: Verdict)
    ensures v.Valid? ==> forall rule :: !Breaks(p, rule)
    ensures v.Invalid? ==> Breaks(p, v.rule)
    ensures v.Invalid? ==> forall rule :: Rank(rule) < Rank(v.rule) ==> !Breaks(p, rule)
  {
    EmailRegexTestCorrect(p.email);
    if IsBlank(p.email) then Invalid(EmailRequired)
    else if !EmailRegexTest(p.email) then Invalid(EmailWellFormed)
    else if IsBlank(p.password) then Invalid(PasswordRequired)
    else if |p.password| < MinPasswordLength then Invalid(PasswordLongEnough)
    else if p.mode == SignUp && IsBlank(p.fullName) then Invalid(FullNameRequired)
    else NoRuleBroken(p); Valid
  }

  /** Checking the five rules one by one covers every rule. */
  lemma NoRuleBroken(p: AuthPage)
    requires !Breaks(p, EmailRequired) && !Breaks(p, EmailWellFormed) && !Breaks(p, PasswordRequired)
    requires !Breaks(p, PasswordLongEnough) && !Breaks(p, FullNameRequired)
    ensures forall rule :: !Breaks(p, rule)
  {
  }

  /** The request sent to the identity provider. */
  datatype Request =
    | SignInRequest(email: string, password: string)
    | SignUpRequest(email: string, password: string, fullName: string, redirectTo: string)

  /** How the provider call ended: it returned no error, it returned an error
      carrying a message, or the awaited call threw. */
  datatype Reply = Succeeded | Failed(message: string) | Threw

  /** What one submission did: the request issued (if any), the toasts shown,
      the navigations made, every write to `loading` in order, and the page
      state afterwards. */
  datatype Submission = Submission(
    request: Option<Request>, toasts: seq<Toast>, navigations: seq<Path>,
    loadingWrites: seq<bool>, page: AuthPage)

  const InvalidCredentials := "Invalid login credentials"
  const AlreadyRegistered := "already registered"
  const IncorrectCredentialsText := "Email o contraseña incorrectos"
  const DuplicateEmailText := "Este email ya está registrado"
  const GenericFailureText := "Ha ocurrido un error. Por favor intenta de nuevo."
  const WelcomeBackText := "¡Bienvenido de nuevo!"
  const AccountCreatedText := "¡Cuenta creada exitosamente! Revisa tu email para confirmar."

  /** The mode whose branch of `handleAuth` sent `request`. */
  function ModeOf(request: Request): Mode {
    if request.SignInRequest? then Login else SignUp
  }

  /** The request for the current mode: the e-mail is trimmed, the password
      is sent as typed, and sign-up also sends the trimmed full name and the
      page to return to after confirmation. */
  function RequestFor(p: AuthPage, origin: string): (r: Request)
    ensures ModeOf(r) == p.mode
    ensures r.email == Trim(p.email) && r.password == p.password
    ensures r.SignUpRequest? ==> r.fullName == Trim(p.fullName) && r.redirectTo == origin + "/"
  {
    match p.mode
    case Login => SignInRequest(Trim(p.email), p.password)
    case SignUp => SignUpRequest(Trim(p.email), p.password, Trim(p.fullName), origin + "/")
  }

  /** The text shown for a provider error: each mode recognises one known
      message by substring and shows a fixed text for it; any other message
      is shown as the provider wrote it. */
  function ErrorText(mode: Mode, message: string): (t: string)
    ensures mode == Login && (exists i :: OccursAt(message, InvalidCredentials, i)) ==> t == IncorrectCredentialsText
    ensures mode == SignUp && (exists i :: OccursAt(message, AlreadyRegistered, i)) ==> t == DuplicateEmailText
    ensures mode == Login && (forall i :: !OccursAt(message, InvalidCredentials, i)) ==> t == message
    ensures mode == SignUp && (forall i :: !OccursAt(message, AlreadyRegistered, i)) ==> t == message
  {
    ContainsIffOccurs(message, InvalidCredentials);
    ContainsIffOccurs(message, AlreadyRegistered);
    match mode
    case Login => if Contains(message, InvalidCredentials) then IncorrectCredentialsText else message
    case SignUp => if Contains(message, AlreadyRegistered) then DuplicateEmailText else message
  }

  /** The part of `handleAuth` before the awaited provider call. An invalid
      form shows the rule's message and stops without touching `loading`.
      A valid one raises `loading` and sends the request for the current
      mode: trimmed e-mail, the password as typed, and on sign-up the
      trimmed full name and the return page. */
  function Submit(p: AuthPage, origin: string): (r: Submission)
    ensures r.request.None? <==> Validate(p).Invalid?
    ensures r.navigations == []
    ensures Validate(p).Invalid? ==>
      && r.toasts == [ErrorToast(RuleMessage(Validate(p).rule))]
      && r.loadingWrites == [] && r.page == p
    ensures r.request.Some? ==> r.toasts == [] && r.loadingWrites == [true] && r.page == p.(loading := true)
    ensures r.request.Some? ==>
      && r.request.value.email == Trim(p.email)
      && r.request.value.password == p.password
      && ModeOf(r.request.value) == p.mode
      && (r.request.value.SignUpRequest? ==>
            r.request.value.fullName == Trim(p.fullName) && r.request.value.redirectTo == origin + "/")
  {
    match Validate(p)
    case Invalid(rule) => Submission(None, [ErrorToast(RuleMessage(rule))], [], [], p)
    case Valid => Submission(Some(RequestFor(p, origin)), [], [], [true], p.(loading := true))
  }

  /** What the part of `handleAuth` after the awaited call did: the toasts,
      the navigations and the page afterwards. */
  datatype Settled = Settled(toasts: seq<Toast>, navigations: seq<Path>, page: AuthPage)

  /** The part of `handleAuth` after the awaited call, applied to the page
      as it is when the reply arrives. The branch taken is the one that sent
      `sent`, whatever the mode is by then. `loading` is cleared whatever
      the reply; a successful sign-up switches to login mode, and no other
      reply touches the mode; only a successful login navigates, once, to
      the home page. */
  function Settle(p: AuthPage, sent: Request, reply: Reply): (r: Settled)
    ensures !r.page.loading && r.page.(mode := p.mode, loading := p.loading) == p
    ensures sent.SignUpRequest? && reply.Succeeded? ==> r.page.mode == Login
    ensures !(sent.SignUpRequest? && reply.Succeeded?) ==> r.page.mode == p.mode
    ensures r.navigations != [] <==> sent.SignInRequest? && reply.Succeeded?
    ensures |r.navigations| <= 1 && forall i | 0 <= i < |r.navigations| :: r.navigations[i] == HomePath
    ensures reply.Succeeded? ==>
      r.toasts == [SuccessToast(if sent.SignInRequest? then WelcomeBackText else AccountCreatedText)]
    ensures reply.Failed? ==> r.toasts == [ErrorToast(ErrorText(ModeOf(sent), reply.message))]
    ensures reply.Threw? ==> r.toasts == [ErrorToast(GenericFailureText)]
  {
    var settled := p.(loading := false);
    match reply
    case Threw => Settled([ErrorToast(GenericFailureText)], [], settled)
    case Failed(message) => Settled([ErrorToast(ErrorText(ModeOf(sent), message))], [], settled)
    case Succeeded =>
      if sent.SignInRequest? then Settled([SuccessToast(WelcomeBackText)], [HomePath], settled)
      else Settled([SuccessToast(AccountCreatedText)], [], settled.(mode := Login))
  }

  /** `handleAuth` when no mode button is pressed while the request is in
      flight. A form that fails validation issues no request, shows the
      rule's message and never touches `loading`. Otherwise exactly one
      request goes out, `loading` is raised and then cleared whatever the
      reply, only a successful sign-up switches to login mode, and only a
      successful login navigates, once, to the home page. */
  function HandleAuth(p: AuthPage, origin: string, reply: Reply): (r: Submission)
    ensures r.request.None? <==> Validate(p).Invalid?
    ensures Validate(p).Invalid? ==>
      && r.toasts == [ErrorToast(RuleMessage(Validate(p).rule))]
      && r.navigations == [] && r.loadingWrites == [] && r.page == p
    ensures r.request.Some? ==> r.loadingWrites == [true, false] && !r.page.loading
    ensures r.request.Some? ==>
      && r.request.value.email == Trim(p.email)
      && r.request.value.password == p.password
      && (r.request.value.SignInRequest? <==> p.mode == Login)
      && (r.request.value.SignUpRequest? ==>
            r.request.value.fullName == Trim(p.fullName) && r.request.value.redirectTo == origin + "/")
    ensures r.page.(mode := p.mode, loading := p.loading) == p
    ensures r.page.mode != p.mode <==> p.mode == SignUp && r.request.Some? && reply.Succeeded?
    ensures r.navigations != [] <==> p.mode == Login && r.request.Some? && reply.Succeeded?
    ensures |r.navigations| <= 1 && forall i | 0 <= i < |r.navigations| :: r.navigations[i] == HomePath
    ensures |r.toasts| == 1 && (r.toasts[0].SuccessToast? <==> r.request.Some? && reply.Succeeded?)
    ensures r.request.Some? && reply.Succeeded? ==>
      r.toasts == [SuccessToast(if p.mode == Login then WelcomeBackText else AccountCreatedText)]
    ensures r.request.Some? && reply.Failed? ==> r.toasts == [ErrorToast(ErrorText(p.mode, reply.message))]
    ensures r.request.Some? && reply.Threw? ==> r.toasts == [ErrorToast(GenericFailureText)]
  {
    var s := Submit(p, origin);
    if s.request.None? then s
    else
      var t := Settle(s.page, s.request.value, reply);
      Submission(s.request, t.toasts, t.navigations, s.loadingWrites + [false], t.page)
  }

  /** The "Registro" button: sign-up mode, whatever the mode was; nothing
      else changes, and a request in flight does not block it. */
  function ClickSignUp(p: AuthPage): (q: AuthPage)
    ensures q.mode == SignUp && q.(mode := p.mode) == p
  {
    p.(mode := SignUp)
  }

  /** The "Iniciar Sesión" button: login mode, whatever the mode was. */
  function ClickLogin(p: AuthPage): (q: AuthPage)
    ensures q.mode == Login && q.(mode := p.mode) == p
  {
    p.(mode := Login)
  }

  /** The buttons set the mode outright: pressing one twice is pressing it
      once, and the last button pressed decides the mode. */
  lemma ModeButtonsAreAbsolute(p: AuthPage)
    ensures ClickSignUp(ClickSignUp(p)) == ClickSignUp(p) && ClickLogin(ClickLogin(p)) == ClickLogin(p)
    ensures ClickSignUp(ClickLogin(p)) == ClickSignUp(p) && ClickLogin(ClickSignUp(p)) == ClickLogin(p)
  {
  }

  /** The button for mode `m`. */
  function Press(p: AuthPage, m: Mode): (q: AuthPage)
    ensures q.mode == m && q.(mode := p.mode) == p
  {
    match m
    case SignUp => ClickSignUp(p)
    case Login => ClickLogin(p)
  }

  /** Presses of the mode buttons, in order, each given by the mode it
      selects: only the mode changes, and the last press decides it. */
  function PressAll(p: AuthPage, presses: seq<Mode>): (q: AuthPage)
    ensures q.(mode := p.mode) == p
    ensures presses == [] ==> q == p
    ensures presses != [] ==> q.mode == presses[|presses| - 1]
    decreases |presses|
  {
    if presses == [] then p else PressAll(Press(p, presses[0]), presses[1..])
  }

  /** The mode buttons stay active while a request is in flight (the
      inputs and the submit button are disabled). Whatever is pressed in
      between, `loading` is cleared when the reply arrives, and the final
      mode is login after a successful sign-up and otherwise the mode the
      last press selected; nothing else on the page changes. The toast and
      the navigation are those of the submitted mode
      (`ReplyFollowsSubmittedMode`). */
  lemma ClicksDuringRequest(p: AuthPage, origin: string, presses: seq<Mode>, reply: Reply)
    requires Validate(p).Valid?
    ensures var s := Submit(p, origin);
      var t := Settle(PressAll(s.page, presses), s.request.value, reply);
      && !t.page.loading
      && t.page.(mode := p.mode) == p.(loading := false)
      && (p.mode == SignUp && reply.Succeeded? ==> t.page.mode == Login)
      && (!(p.mode == SignUp && reply.Succeeded?) && presses != [] ==> t.page.mode == presses[|presses| - 1])
      && (!(p.mode == SignUp && reply.Succeeded?) && presses == [] ==> t.page.mode == p.mode)
  {
  }

  /** Whatever the page looks like when the reply arrives, the toast and
      the navigation are those of the mode the form was submitted in. */
  lemma ReplyFollowsSubmittedMode(p: AuthPage, origin: string, q: AuthPage, reply: Reply)
    requires Validate(p).Valid?
    ensures var t := Settle(q, Submit(p, origin).request.value, reply);
      && (t.navigations != [] <==> p.mode == Login && reply.Succeeded?)
      && (p.mode == Login && reply.Succeeded? ==> t.navigations == [HomePath])
      && (reply.Succeeded? ==>
            t.toasts == [SuccessToast(if p.mode == Login then WelcomeBackText else AccountCreatedText)])
      && (reply.Failed? ==> t.toasts == [ErrorToast(ErrorText(p.mode, reply.message))])
      && (reply.Threw? ==> t.toasts == [ErrorToast(GenericFailureText)])
  {
  }

  /** A sign-up refused as a duplicate after the user switched to login
      mode while it was in flight: the duplicate-e-mail text is shown, and
      the page stays in the login mode the button chose. */
  lemma DuplicateSignUpAfterSwitchToLogin(p: AuthPage, origin: string, message: string, i: int)
    requires p.mode == SignUp && Validate(p).Valid?
    requires OccursAt(message, AlreadyRegistered, i)
    ensures var s := Submit(p, origin);
      var t := Settle(ClickLogin(s.page), s.request.value, Failed(message));
      t.page.mode == Login && t.toasts == [ErrorToast(DuplicateEmailText)] && !t.page.loading
  {
  }

  // ---------------------------------------------------------------------
  // Properties of the validator

  /** The five validator toasts are pairwise different, so the toast shown
      tells which rule the form broke. */
  lemma RuleMessageIdentifiesRule(a: Rule, b: Rule)
    ensures RuleMessage(a) == RuleMessage(b) <==> a == b
  {
    if a != b {
      assert |RuleMessage(a)| != |RuleMessage(b)| by {
        MessageLengths();
      }
    }
  }

  /** The five toasts have five different lengths. */
  lemma MessageLengths()
    ensures |RuleMessage(EmailRequired)| == 26 && |RuleMessage(EmailWellFormed)| == 33
    ensures |RuleMessage(PasswordRequired)| == 31 && |RuleMessage(PasswordLongEnough)| == 46
    ensures |RuleMessage(FullNameRequired)| == 36
  {
  }

  /** The page opens in sign-up mode with nothing in flight, and submitting
      it untouched asks for the e-mail and sends nothing. */
  lemma OpeningPage(origin: string, reply: Reply)
    ensures InitialPage.mode == SignUp && !InitialPage.loading
    ensures Validate(InitialPage) == Invalid(EmailRequired)
    ensures var r := HandleAuth(InitialPage, origin, reply);
      r.request.None? && r.page == InitialPage && r.toasts == [ErrorToast("Por favor ingresa tu email")]
  {
  }

  /** A password shorter than six characters is rejected in both modes,
      by the length rule or by an earlier one. */
  lemma ShortPasswordRejected(p: AuthPage)
    requires |p.password| < MinPasswordLength
    ensures Validate(p).Invalid? && Rank(Validate(p).rule) <= Rank(PasswordLongEnough)
  {
  }

  /** A password made only of white space counts as missing, however long
      it is, once the e-mail has passed its checks. */
  lemma WhitespacePasswordIsMissing(p: AuthPage)
    requires !IsBlank(p.email) && MatchesEmailRegex(p.email)
    requires AllWhitespace(p.password)
    ensures Validate(p) == Invalid(PasswordRequired)
  {
    EmailRegexTestCorrect(p.email);
    BlankIffAllWhitespace(p.password);
  }

  /** In login mode the full-name field never affects the verdict. */
  lemma LoginIgnoresFullName(p: AuthPage, name: string)
    requires p.mode == Login
    ensures Validate(p.(fullName := name)) == Validate(p)
  {
  }

  /** In sign-up mode a blank full name always makes the form invalid. */
  lemma SignUpRequiresFullName(p: AuthPage)
    requires p.mode == SignUp && IsBlank(p.fullName)
    ensures Validate(p).Invalid?
  {
  }

  /** An e-mail with no `@` is rejected before any password check. */
  lemma EmailWithoutAtRejected(p: AuthPage)
    requires forall i | 0 <= i < |p.email| :: p.email[i] != '@'
    ensures Validate(p).Invalid? && Rank(Validate(p).rule) <= Rank(EmailWellFormed)
  {
    assert Breaks(p, EmailWellFormed);
  }

  // ---------------------------------------------------------------------
  // Sample runs

  /** A well-formed e-mail with a short but non-blank password is rejected
      for its length: no request, `loading` untouched, and the length
      message is the only toast. */
  lemma ShortPasswordSendsNothing(p: AuthPage, origin: string, reply: Reply)
    requires !IsBlank(p.email) && MatchesEmailRegex(p.email)
    requires !IsBlank(p.password) && |p.password| < MinPasswordLength
    ensures Validate(p) == Invalid(PasswordLongEnough)
    ensures var r := HandleAuth(p, origin, reply);
      && r.request.None? && r.loadingWrites == [] && r.page == p
      && r.toasts == [ErrorToast("La contraseña debe tener al menos 6 caracteres")]
  {
    EmailRegexTestCorrect(p.email);
  }

  /** A valid sign-up that the provider refuses as a duplicate, with no
      mode button pressed meanwhile, shows the duplicate-e-mail text, stays
      in sign-up mode and clears `loading`. */
  lemma DuplicateSignUp(p: AuthPage, origin: string, message: string, i: int)
    requires p.mode == SignUp && Validate(p).Valid?
    requires OccursAt(message, AlreadyRegistered, i)
    ensures var r := HandleAuth(p, origin, Failed(message));
      && r.toasts == [ErrorToast(DuplicateEmailText)]
      && r.page.mode == SignUp && !r.page.loading && r.navigations == []
  {
  }

  /** A valid login the provider accepts shows the welcome toast and
      navigates to the home page exactly once. */
  lemma SuccessfulLogin(p: AuthPage, origin: string)
    requires p.mode == Login && Validate(p).Valid?
    ensures var r := HandleAuth(p, origin, Succeeded);
      && r.toasts == [SuccessToast(WelcomeBackText)]
      && r.navigations == [HomePath] && r.page.mode == Login && !r.page.loading
  {
  }
}
