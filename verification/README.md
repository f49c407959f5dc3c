# Credential form and session observer, modelled in Dafny

This project models the two pieces of decision logic in the client pages of a
small sign-in application backed by a hosted identity service:

- **The credential page** (`src/pages/Auth.tsx`). `validateForm` checks five
  rules in a fixed order and reports only the first that fails. `handleAuth`
  sends a sign-in or a sign-up request and turns the provider's reply into a
  toast, maybe a navigation, maybe a mode change, and clears the in-flight
  flag `loading`. Two buttons set the sign-up/login mode.
- **The personalised page** (`src/pages/Index.tsx`). The page keeps
  `session`, `user`, `fullName` and `loading`. They change on four kinds of
  event: auth-change notifications, the one-shot `getSession` query,
  profile-fetch results, and sign-out. The page then renders a spinner,
  nothing, or a greeting.

The identity provider, the profile store, toasts and navigation are not
modelled as code. Provider replies are inputs. Toasts, navigations, writes to
`loading` and started profile fetches are recorded in logs.

Files:

- `common.dfy`: `Option`, toast notifications, navigation paths.
- `text.dfy`: JavaScript's white-space class, `trim`, blankness (`!s.trim()`)
  and `includes`.
- `email_pattern.dfy`: the regular expression `^[^\s@]+@[^\s@]+\.[^\s@]+$`.
  It is written as a predicate over indices, restated by its parts, and
  computed by a linear test.
- `auth_form.dfy`: `validateForm`, `handleAuth` and the mode buttons.
- `session_observer.dfy`: the personalised page as a reducer over event
  sequences. Every interleaving of notifications, the initial query,
  deferred fetches, profile results and sign-outs is one such sequence.
  `setTimeout(…, 0)` becomes a FIFO queue of pending user ids.

Behaviour of the code worth knowing:

- The e-mail pattern is tested on the `email` state untrimmed. Only the
  blank check and the request trim it.
- The password "non-empty" rule is a trim check. A password of six or more
  spaces is reported as missing, not as too short.
- Of the two session sources, only the `getSession` continuation clears
  `loading` or redirects. Notifications do neither. The only other
  navigation on the page is the one after sign-out. A page whose initial query never resolves shows
  the spinner forever (`SpinnerUntilInitialSession`).
- `handleAuth` has no re-entrancy guard of its own. While `loading` is set
  the three inputs and the submit button are disabled, but the two mode
  buttons are not. A press while a request is in flight changes the mode;
  the reply is still handled by the branch chosen at submit time, and a
  successful sign-up then switches to login mode whatever was pressed
  (`ClicksDuringRequest`).
- Sign-out does not clear the session itself. That is left to the listener's
  notification.
- Profile results are applied whenever they arrive. Nothing checks that the
  page is still mounted or that the user is still the same.

## Model

| member | source | states |
|---|---|---|
| `Text.TrimStartDropsLeadingWhitespace` | src/pages/Auth.tsx:31 | the first half of `trim` drops only leading white space and keeps a suffix that starts with a non-space |
| `Text.TrimEndDropsTrailingWhitespace` | src/pages/Auth.tsx:31 | the second half of `trim` drops only trailing white space and keeps a prefix that ends with a non-space |
| `Text.TrimIsSlice` | src/pages/Auth.tsx:70 | the trimmed value sent to the provider is a contiguous slice of the input, has no white space at either end, and only white space was cut off |
| `Text.BlankIffAllWhitespace` | src/pages/Auth.tsx:42-45 | `!s.trim()` holds exactly when every character of `s` is white space |
| `Text.ContainsIffOccurs` | src/pages/Auth.tsx:75 | the left-to-right `includes` search succeeds exactly when the fragment occurs at some index |
| `EmailPattern.EmailRegexIffShaped` | src/pages/Auth.tsx:36-37 | the pattern matches exactly the strings with no white space, exactly one `@` with something before it, and after it a `.` with at least one character on each side |
| `EmailPattern.MatchImpliesShaped` | src/pages/Auth.tsx:36 | every match has that shape, with the `@` at the split point being the only one |
| `EmailPattern.ShapedImpliesMatch` | src/pages/Auth.tsx:36 | every string of that shape splits into three non-empty runs of `[^\s@]` as the pattern requires |
| `EmailPattern.IndexOfFindsFirst` | src/pages/Auth.tsx:37 | the linear test's search returns the first occurrence, and -1 exactly when there is none |
| `EmailPattern.EmailRegexTestCorrect` | src/pages/Auth.tsx:36-37 | the linear test used by the validator accepts exactly the strings the pattern matches |
| `AuthForm.Validate` | src/pages/Auth.tsx:30-58 | valid only when no rule is broken; otherwise the reported rule is broken and every rule checked before it holds |
| `AuthForm.ShortPasswordRejected` | src/pages/Auth.tsx:47-50 | a password shorter than 6 is rejected in both modes, by the length rule or an earlier one |
| `AuthForm.WhitespacePasswordIsMissing` | src/pages/Auth.tsx:42-50 | with a good e-mail, an all-white-space password is reported as missing whatever its length |
| `AuthForm.LoginIgnoresFullName` | src/pages/Auth.tsx:52-55 | in login mode the full-name field never changes the verdict |
| `AuthForm.SignUpRequiresFullName` | src/pages/Auth.tsx:52-55 | in sign-up mode a blank full name always rejects |
| `AuthForm.EmailWithoutAtRejected` | src/pages/Auth.tsx:36-40 | an e-mail without `@` is rejected before any password rule |
| `AuthForm.RuleMessageIdentifiesRule` | src/pages/Auth.tsx:30-58 | the validator's five toasts (e-mail missing, e-mail malformed, password missing, password under 6 characters, name missing) are pairwise different, so the toast tells which rule broke |
| `AuthForm.OpeningPage` | src/pages/Auth.tsx:12-16 | the page opens in sign-up mode with empty fields and `loading` false, and submitting it untouched asks for the e-mail and sends nothing |
| `AuthForm.RequestFor` | src/pages/Auth.tsx:67-95 | the request follows the current mode: the trimmed e-mail and the password as typed, and on sign-up also the trimmed full name and `origin + "/"` as the return page |
| `AuthForm.ErrorText` | src/pages/Auth.tsx:74-104 | a login error containing "Invalid login credentials" and a sign-up error containing "already registered" get fixed texts; every other message is shown verbatim, and each mode's phrase counts only in that mode |
| `AuthForm.Submit` | src/pages/Auth.tsx:60-95 | a failed validation issues no request, never writes `loading` and shows the rule's message; otherwise `loading` is raised and one request goes out for the current mode: trimmed e-mail, raw password, and on sign-up the trimmed name and `origin + "/"` |
| `AuthForm.Settle` | src/pages/Auth.tsx:74-113 | after the reply `loading` is cleared whatever it was; the toast follows the branch that sent the request, not the mode at reply time; only a successful sign-up switches to login, and only a successful login navigates, once, to "/" |
| `AuthForm.HandleAuth` | src/pages/Auth.tsx:60-114 | with no mode press in flight: a failed validation issues no request, writes `loading` never and shows the rule's message; otherwise one request goes out, `loading` is written true then false, exactly one toast shows (the welcome or account-created text on success), only sign-up success switches to login, only login success navigates, once, to "/" |
| `AuthForm.ShortPasswordSendsNothing` | src/pages/Auth.tsx:63-65 | a short non-blank password after a good e-mail sends nothing, leaves the page as it was and shows the length message |
| `AuthForm.DuplicateSignUp` | src/pages/Auth.tsx:97-113 | a refused duplicate sign-up, with no mode press in flight, shows the duplicate-e-mail text, stays in sign-up mode and clears `loading` |
| `AuthForm.DuplicateSignUpAfterSwitchToLogin` | src/pages/Auth.tsx:97-143 | a duplicate sign-up refused after "Iniciar Sesión" was pressed in flight still shows the duplicate-e-mail text, and the page stays in login mode |
| `AuthForm.SuccessfulLogin` | src/pages/Auth.tsx:83-84 | a successful login shows the welcome toast and navigates to "/" exactly once |
| `AuthForm.ClickSignUp` | src/pages/Auth.tsx:124 | the sign-up button sets sign-up mode and changes nothing else |
| `AuthForm.ClickLogin` | src/pages/Auth.tsx:135 | the login button sets login mode and changes nothing else |
| `AuthForm.ModeButtonsAreAbsolute` | src/pages/Auth.tsx:122-143 | each button is idempotent and the last button pressed decides the mode |
| `AuthForm.Press` | src/pages/Auth.tsx:122-143 | either button sets the mode it names and changes nothing else |
| `AuthForm.PressAll` | src/pages/Auth.tsx:122-143 | any sequence of presses changes only the mode, and the last press decides it |
| `AuthForm.ClicksDuringRequest` | src/pages/Auth.tsx:60-143 | with presses between the request and its reply, `loading` is cleared, nothing but the mode changes, and the final mode is login after sign-up success, else the last press's mode, else the submitted one |
| `AuthForm.ReplyFollowsSubmittedMode` | src/pages/Auth.tsx:74-113 | on whatever page the reply meets, the toast is that of the submitted mode (welcome or account-created on success, the classified error on failure, the generic text on a throw) and only a successful login navigates, exactly to "/" |
| `SessionObserver.OnAuthChange` | src/pages/Index.tsx:18-30 | a notification adopts its session and user and queues one deferred fetch when there is a user; it never navigates, fetches inline or touches `loading` |
| `SessionObserver.OnInitialSession` | src/pages/Index.tsx:33-43 | the initial query adopts its session and clears `loading`; with a user it starts one fetch for that id and does not navigate, without one it redirects to "/auth" once and fetches nothing |
| `SessionObserver.OnDeferredFetch` | src/pages/Index.tsx:24-27 | a deferred callback moves the oldest queued id to the started fetches; nothing else changes |
| `SessionObserver.OnProfile` | src/pages/Index.tsx:48-67 | a returned record sets the full name; an error, a throw or no record leaves the page unchanged; nothing but the name ever changes |
| `SessionObserver.OnSignOut` | src/pages/Index.tsx:69-77 | a returning sign-out shows the success toast and navigates to "/auth"; a throwing one shows the error toast and does not navigate |
| `SessionObserver.GreetingName` | src/pages/Index.tsx:103 | the greeting name is never empty and is the profile's name whenever that is non-empty, else "Usuario" |
| `SessionObserver.Render` | src/pages/Index.tsx:79-92 | spinner exactly while loading, nothing exactly when loaded without a user, else the greeting |
| `SessionObserver.RunKeepsUserMatchingSession` | src/pages/Index.tsx:20-21 | after any run the user is the current session's user, or none without a session |
| `SessionObserver.SessionKeptWithoutWrites` | src/pages/Index.tsx:20-35 | events other than notifications and the initial query leave session and user alone |
| `SessionObserver.LastSessionWriteWins` | src/pages/Index.tsx:18-43 | after any interleaving the session is the one carried by the latest notification or initial resolution |
| `SessionObserver.LoadingClearedOnlyByInitialSession` | src/pages/Index.tsx:13-42 | `loading` is false after a run exactly when it was already false or the initial query resolved in it |
| `SessionObserver.StepNavigations` | src/pages/Index.tsx:37-77 | one event appends one "/auth" navigation when it is an empty initial query or a returning sign-out, and none otherwise |
| `SessionObserver.NavigationsAreRedirects` | src/pages/Index.tsx:37-77 | every navigation is to "/auth", one per initial query without a user or returning sign-out, none from notifications |
| `SessionObserver.ProfilesOnlyTouchName` | src/pages/Index.tsx:48-67 | removing all profile results from a run changes nothing but the full name: session, user, `loading`, queue and logs are the same |
| `SessionObserver.NameKeptWithoutRecords` | src/pages/Index.tsx:56-66 | without a returned record the full name never changes |
| `SessionObserver.LastRecordNameWins` | src/pages/Index.tsx:61-63 | the full name is the one in the latest returned record |
| `SessionObserver.FetchesAccountForSessionUsers` | src/pages/Index.tsx:23-38 | queued plus started fetches are exactly the users brought by notifications and the initial query, none lost or invented |
| `SessionObserver.SpinnerUntilInitialSession` | src/pages/Index.tsx:79-88 | from mount, the spinner shows until the initial query resolves, whatever else arrives |
| `SessionObserver.ProfilesKeepViewKind` | src/pages/Index.tsx:79-92 | profile results never change whether the page shows the spinner, nothing or the greeting |
| `SessionObserver.AuthEventKindIgnored` | src/pages/Index.tsx:19 | the notification's kind plays no part in the listener |
| `SessionObserver.NoSessionAtStartup` | src/pages/Index.tsx:37-42 | with no session at start-up the page redirects once, fetches nothing and renders nothing |
| `SessionObserver.InitialQueryResolvesLast` | src/pages/Index.tsx:18-43 | a notification with a user followed by an empty initial query ends signed out with one redirect, while the deferred fetch stays queued |
| `SessionObserver.NotificationArrivesLast` | src/pages/Index.tsx:18-43 | an empty initial query followed by a notification with a user leaves the redirect to "/auth" in the log and, if the page received the notification, would show it signed in with the fallback greeting |

## Left out

- Supabase calls (`signInWithPassword`, `signUp`, `getSession`, `onAuthStateChange`, `signOut`, the `profiles` query): foreign I/O. Their outcomes are inputs: `Reply`, the sessions carried by events, `ProfileReply`, `SignOutReply`.
- Toasts and navigation: recorded in logs only. `console.error` on profile failures is not recorded, because it has no effect on the page.
- JSX, CSS classes and icons: presentation only. `Render` keeps just the choice between spinner, nothing and greeting.
- The browser's handling of `<Input type="email">` (src/pages/Auth.tsx:181-189, in the form at line 158, which has no `noValidate`): the browser strips leading and trailing ASCII white space from the field's value. It also blocks the submit of a non-empty value it does not accept as an e-mail before `handleAuth` runs. The model takes the field values as `validateForm` reads them, so on the real page some malformed e-mails never reach the "Por favor ingresa un email válido" toast.
- `window.location.origin` in the sign-up redirect target: it depends on the environment, so it is the parameter `origin`.
- The mount check on the credential page that navigates to "/" when a session exists (src/pages/Auth.tsx:19-28): I/O glue with no decision logic.
- Unsubscribing on unmount (src/pages/Index.tsx:45): the code calls it exactly once. Idempotence is not implemented, so it is not claimed.
- Unmounting the personalised page: not modelled. `navigate("/auth")` (src/pages/Index.tsx:40, 73) leaves the page, and its cleanup unsubscribes the listener, but the model keeps applying events that follow a redirect. Conclusions about the page after a redirect (`NotificationArrivesLast`, the later steps of a run in the trace lemmas) describe what the handlers would do, not a page the user still sees.
- Timing of `setTimeout(…, 0)` and React's batching: deferral is a FIFO queue, and a handler's state updates are applied together.
- Profile results carry no user id, and any number of them may arrive in any order. That covers every order in which in-flight fetches can finish.
- `data.full_name` is taken to be a string. A null name would render the fallback, just as an empty one does.
- `IsWhitespace` is the fixed set of characters ECMAScript counts as white space and line terminators, not a live Unicode table. `password.length` (UTF-16 code units) is the sequence length.
