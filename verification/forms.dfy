/**
 * The client's form checks, as pure functions of the fields typed in: the
 * journal form, registration, login, reset and forgot-password, and the check
 * that gates protected pages on a stored token. Each form yields its error map
 * (field to message) and, when that map is empty, the request it sends; the
 * lemmas relate what the client sends to what the server's handlers accept.
 */
module Forms {
  import opened Wrappers
  import opened Text
  import Dates
  import Journal
  import Auth
  import Users
  import Crypto
  import Guard
  import Routes

  /** An email-shaped string as the forms see it: it contains `@` and `.`. */
  predicate EmailShaped(email: string) {
    '@' in email && '.' in email
  }

  /** Records `message` under `field` when there is one, as each validator's `if (…) errors.field = …` does. */
  function Put<K>(e: map<K, string>, field: K, message: Option<string>): (r: map<K, string>)
    ensures r.Keys == if message.Some? then e.Keys + {field} else e.Keys
    ensures message.Some? ==> r[field] == message.value
    ensures forall k :: k in e && k != field ==> r[k] == e[k]
  {
    if message.Some? then e[field := message.value] else e
  }

  // ---------------------------------------------------------------- journal form

  datatype JournalField = ChantingError | RoundsError | ReadingError | KathaError | GratitudeError

  datatype JournalForm = JournalForm(chanting: string, rounds: string, reading: string,
                                     katha: string, gratitude: string)

  /** `!rounds || parseInt(rounds) <= 0`; a string that does not parse (NaN) is not `<= 0`. */
  predicate RoundsRejected(rounds: string) {
    rounds == "" || (ParseInt(rounds).Some? && ParseInt(rounds).value <= 0)
  }

  /** The journal page's message for each field. */
  function JournalMessage(field: JournalField): string {
    match field
    case ChantingError => "Please select chanting status."
    case RoundsError => "Please enter valid number of rounds."
    case ReadingError => "Please select reading status."
    case KathaError => "Please select katha status."
    case GratitudeError => "Gratitude can't be empty."
  }

  /**
   * The fields `validateForm` flags, each under its own `if`. The gratitude test
   * `!gratitude.trim()` is written as `AllSpace`, which `TrimEmptyIff` shows equivalent.
   */
  function FlaggedJournalFields(f: JournalForm): (s: set<JournalField>)
    ensures ChantingError in s <==> f.chanting == ""
    ensures RoundsError in s <==> f.chanting == "yes" && RoundsRejected(f.rounds)
    ensures ReadingError in s <==> f.reading == ""
    ensures KathaError in s <==> f.katha == ""
    ensures GratitudeError in s <==> AllSpace(f.gratitude)
  {
    (if f.chanting == "" then {ChantingError} else {})
    + (if f.chanting == "yes" && RoundsRejected(f.rounds) then {RoundsError} else {})
    + (if f.reading == "" then {ReadingError} else {})
    + (if f.katha == "" then {KathaError} else {})
    + (if AllSpace(f.gratitude) then {GratitudeError} else {})
  }

  /** `validateForm`'s error map. */
  function JournalErrors(f: JournalForm): (e: map<JournalField, string>)
    ensures ChantingError in e <==> f.chanting == ""
    ensures RoundsError in e <==> f.chanting == "yes" && RoundsRejected(f.rounds)
    ensures ReadingError in e <==> f.reading == ""
    ensures KathaError in e <==> f.katha == ""
    ensures GratitudeError in e <==> AllSpace(f.gratitude)
    ensures forall k :: k in e ==> e[k] == JournalMessage(k)
  {
    map k | k in FlaggedJournalFields(f) :: JournalMessage(k)
  }

  /** The body `handleSubmit` posts: rounds only when chanting is "yes", and `Number(NaN)` travels as null. */
  function JournalPayload(f: JournalForm): (req: Journal.JournalRequest)
    ensures req.chanting.Some? && req.chanting.value.status == Some(f.chanting)
    ensures req.chanting.value.rounds.Some? <==> f.chanting == "yes" && ParseInt(f.rounds).Some?
    ensures req.chanting.value.rounds.Some? ==> req.chanting.value.rounds == ParseInt(f.rounds)
    ensures req.reading == Some(Journal.StatusField(Some(f.reading)))
    ensures req.katha == Some(Journal.StatusField(Some(f.katha)))
    ensures req.gratitude == Some(f.gratitude)
  {
    Journal.JournalRequest(
      Some(Journal.ChantingField(Some(f.chanting), if f.chanting == "yes" then ParseInt(f.rounds) else None)),
      Some(Journal.StatusField(Some(f.reading))),
      Some(Journal.StatusField(Some(f.katha))),
      Some(f.gratitude))
  }

  /** A form the client accepts, with rounds typed as a number, passes the server's field checks. */
  lemma JournalFormPassesServerCheck(f: JournalForm)
    requires JournalErrors(f) == map[]
    requires f.chanting == "yes" ==> ParseInt(f.rounds).Some?
    ensures !Journal.Incomplete(JournalPayload(f))
  {
    assert ChantingError !in JournalErrors(f);
    assert RoundsError !in JournalErrors(f);
    assert GratitudeError !in JournalErrors(f);
    assert ReadingError !in JournalErrors(f) && KathaError !in JournalErrors(f);
    TrimEmptyIff(f.gratitude);
  }

  /** The server is laxer than the client about rounds: it refuses 0 but keeps negative counts, which the form rejects. */
  lemma NegativeRoundsOnlyClientRejects(f: JournalForm, n: nat, w: nat)
    requires f.chanting == "yes" && n > 0 && n < Dates.Pow10(w)
    requires f.rounds == "-" + Dates.Digits(n, w)
    ensures RoundsError in JournalErrors(f)
    ensures JournalPayload(f).chanting.value.rounds == Some(0 - n as int)
    ensures Journal.TruthyNumber(JournalPayload(f).chanting.value.rounds)
  {
    assert f.rounds[1..] == Dates.Digits(n, w);
    assert !IsNumeral(f.rounds) by { assert f.rounds[0] == '-'; }
    Dates.NumeralValueOfDigits(n, w);
  }

  /**
   * Rounds text with no digit at all passes the form (`parseInt` gives NaN, and
   * NaN is not `<= 0`). `Number` of such text is NaN, 0 or Infinity, and each of
   * those leaves the server's `!rounds` test true, so the entry is refused as
   * incomplete. The page's number field never holds such text.
   */
  lemma NonNumericRoundsRefusedByServer(f: JournalForm)
    requires f.chanting == "yes" && f.rounds != ""
    requires forall k :: 0 <= k < |f.rounds| ==> !('0' <= f.rounds[k] <= '9')
    requires f.reading != "" && f.katha != "" && !AllSpace(f.gratitude)
    ensures JournalErrors(f) == map[]
    ensures Journal.Incomplete(JournalPayload(f))
  {
    ParseIntNeedsDigit(f.rounds);
    var e := JournalErrors(f);
    assert e.Keys == {} by {
      forall k | k in e ensures false {
        match k
        case ChantingError =>
        case RoundsError =>
        case ReadingError =>
        case KathaError =>
        case GratitudeError =>
      }
    }
  }

  // ---------------------------------------------------------------- register form

  datatype RegisterField = UsernameError | EmailError | PasswordError | ConfirmError

  datatype RegisterForm = RegisterForm(username: string, email: string, password: string,
                                       confirmPassword: string)

  /** The messages the registration, login and reset pages share. */
  const EmailInvalid: string := "Enter a valid email"
  const PasswordTooShort: string := "Password must be at least 6 characters"
  const PasswordsDiffer: string := "Passwords do not match"

  /** The pages' minimum password length, counted as `.length` counts: in UTF-16 code units. */
  predicate ShortPassword(password: string) {
    Utf16Length(password) < 6
  }

  /** `validate` on the registration page. */
  function RegisterErrors(f: RegisterForm): (e: map<RegisterField, string>)
    ensures UsernameError in e <==> AllSpace(f.username) || Utf16Length(f.username) < 4
    ensures UsernameError in e ==> Some(e[UsernameError]) == UsernameProblem(f.username)
    ensures EmailError in e <==> !EmailShaped(f.email)
    ensures EmailError in e ==> e[EmailError] == EmailInvalid
    ensures PasswordError in e <==> ShortPassword(f.password)
    ensures PasswordError in e ==> e[PasswordError] == PasswordTooShort
    ensures ConfirmError in e <==> f.password != f.confirmPassword
    ensures ConfirmError in e ==> e[ConfirmError] == PasswordsDiffer
  {
    var e1 := Put(map[], UsernameError, UsernameProblem(f.username));
    var e2 := Put(e1, EmailError, if !EmailShaped(f.email) then Some(EmailInvalid) else None);
    var e3 := Put(e2, PasswordError, if Utf16Length(f.password) < 6 then Some(PasswordTooShort) else None);
    Put(e3, ConfirmError, if f.password != f.confirmPassword then Some(PasswordsDiffer) else None)
  }

  /** The username check: blank after trimming (`AllSpace`, see `TrimEmptyIff`), then shorter than 4 UTF-16 code units. */
  function UsernameProblem(username: string): (m: Option<string>)
    ensures m.Some? <==> AllSpace(username) || Utf16Length(username) < 4
    ensures AllSpace(username) ==> m == Some("Username is required")
    ensures !AllSpace(username) && Utf16Length(username) < 4 ==>
              m == Some("Username must be at least 4 characters")
  {
    if AllSpace(username) then Some("Username is required")
    else if Utf16Length(username) < 4 then Some("Username must be at least 4 characters")
    else None
  }

  /** Two characters outside the Basic Multilingual Plane make a username of length 4, which the page accepts. */
  lemma AstralUsernameCountsTwice()
    ensures |"\U{1F600}\U{1F600}"| == 2
    ensures UsernameProblem("\U{1F600}\U{1F600}") == None
  {
    var u := "\U{1F600}\U{1F600}";
    assert u[..1] == "\U{1F600}" && u[..1][..0] == "";
    assert !IsSpace(u[0]);
  }

  datatype RegisterRequest = RegisterRequest(username: string, email: string, password: string)

  /** `handleSubmit`: the request goes out only when no field has an error, without the confirmation. */
  function RegisterSubmit(f: RegisterForm): (r: Option<RegisterRequest>)
    ensures r.Some? <==> RegisterErrors(f) == map[]
    ensures r.Some? ==> r.value == RegisterRequest(f.username, f.email, f.password)
  {
    if RegisterErrors(f) == map[] then Some(RegisterRequest(f.username, f.email, f.password)) else None
  }

  /** What the registration form sends always passes the server's "all fields" check. */
  lemma RegisterFormPassesServerCheck(f: RegisterForm, store: Users.UserStore, c: Crypto.Primitives)
    requires !AllSpace(f.username) && Utf16Length(f.username) >= 4 && EmailShaped(f.email)
    requires !ShortPassword(f.password) && f.password == f.confirmPassword
    ensures RegisterSubmit(f).Some?
    ensures var q := RegisterSubmit(f).value;
            var r := Auth.Register(store, Some(q.username), Some(q.email), Some(q.password), c);
            r.reply.status == 201 <==> Users.FindByEmail(store, f.email).None?
  {
    var e := RegisterErrors(f);
    assert UsernameError !in e && EmailError !in e && PasswordError !in e;
  }

  // ---------------------------------------------------------------- login form

  datatype LoginField = LoginEmailError | LoginPasswordError

  /** `validate` on the login page. */
  function LoginErrors(email: string, password: string): (e: map<LoginField, string>)
    ensures LoginEmailError in e <==> !EmailShaped(email)
    ensures LoginEmailError in e ==> e[LoginEmailError] == EmailInvalid
    ensures LoginPasswordError in e <==> ShortPassword(password)
    ensures LoginPasswordError in e ==> e[LoginPasswordError] == PasswordTooShort
  {
    var e1 := Put(map[], LoginEmailError, if !EmailShaped(email) then Some(EmailInvalid) else None);
    Put(e1, LoginPasswordError,
        if password == "" || Utf16Length(password) < 6 then Some(PasswordTooShort) else None)
  }

  datatype LoginRequest = LoginRequest(email: string, password: string)

  /** `handleSubmit` on the login page: the fields go out as typed, only when both checks pass. */
  function LoginSubmit(email: string, password: string): (r: Option<LoginRequest>)
    ensures r.Some? <==> EmailShaped(email) && !ShortPassword(password)
    ensures r.Some? ==> r.value == LoginRequest(email, password)
  {
    if LoginErrors(email, password) == map[] then Some(LoginRequest(email, password)) else None
  }

  /** A login the form lets through is never refused for missing fields; 400 then means an unknown email. */
  lemma LoginFormPassesServerCheck(email: string, password: string, store: Users.UserStore,
                                   c: Crypto.Primitives)
    requires LoginSubmit(email, password).Some?
    ensures Auth.Login(store, Some(email), Some(password), c).status == 400
            <==> Users.FindByEmail(store, email).None?
  {
  }

  /** `getGoogleAuthURL`: the dev-server proxy path, or the API base URL (which already ends in `/api`). */
  function GoogleAuthUrl(dev: bool, baseUrl: Option<string>): (url: string)
    ensures dev ==> url == "/api/auth/google"
    ensures !dev ==> url == Interpolate(baseUrl) + "/auth/google"
  {
    if dev then "/api/auth/google" else Interpolate(baseUrl) + "/auth/google"
  }

  /**
   * The sign-in link reaches the server's Google route: in development the proxy
   * forwards the path unchanged, and a base URL of the form `<origin>/api` gives
   * `<origin>` followed by the route under its mount.
   */
  lemma GoogleAuthUrlReachesGoogleRoute(origin: string)
    ensures GoogleAuthUrl(true, None) == Routes.Mounted(Routes.GoogleRoute)
    ensures GoogleAuthUrl(false, Some(origin + Routes.ApiMount)) == origin + Routes.Mounted(Routes.GoogleRoute)
  {
    assert origin + Routes.ApiMount + Routes.GoogleRoute == origin + (Routes.ApiMount + Routes.GoogleRoute);
  }

  // ---------------------------------------------------------------- reset form

  datatype ResetField = NewPasswordError | ResetConfirmError

  /** `validate` on the reset page. */
  function ResetErrors(newPassword: string, confirmPassword: string): (e: map<ResetField, string>)
    ensures NewPasswordError in e <==> ShortPassword(newPassword)
    ensures NewPasswordError in e ==> e[NewPasswordError] == PasswordTooShort
    ensures ResetConfirmError in e <==> newPassword != confirmPassword
    ensures ResetConfirmError in e ==> e[ResetConfirmError] == PasswordsDiffer
  {
    var e1 := Put(map[], NewPasswordError, if newPassword == "" || Utf16Length(newPassword) < 6
                                           then Some(PasswordTooShort) else None);
    Put(e1, ResetConfirmError, if newPassword != confirmPassword then Some(PasswordsDiffer) else None)
  }

  const ResetPathPrefix: string := "/reset-password/"

  /** The reset request: the token travels in the path, the body carries only the new password. */
  datatype ResetRequest = ResetRequest(path: string, password: string)

  /** `handleSubmit` on the reset page; `token` is the route parameter, which prints as "undefined" when absent. */
  function ResetSubmit(token: Option<string>, newPassword: string, confirmPassword: string): (r: Option<ResetRequest>)
    ensures r.Some? <==> !ShortPassword(newPassword) && newPassword == confirmPassword
    ensures r.Some? ==> && StartsWith(r.value.path, ResetPathPrefix)
                        && r.value.path[|ResetPathPrefix|..] == Interpolate(token)
                        && r.value.password == newPassword
  {
    if ResetErrors(newPassword, confirmPassword) == map[] then
      var path := ResetPathPrefix + Interpolate(token);
      assert path[..|ResetPathPrefix|] == ResetPathPrefix;
      Some(ResetRequest(path, newPassword))
    else None
  }

  /** A reset the form sends carries a password, so the server's answer depends only on the token. */
  lemma ResetFormPassesServerCheck(token: Option<string>, newPassword: string, confirmPassword: string,
                                   store: Users.UserStore, now: nat, c: Crypto.Primitives)
    requires ResetSubmit(token, newPassword, confirmPassword).Some?
    ensures var q := ResetSubmit(token, newPassword, confirmPassword).value;
            Auth.ResetPassword(store, q.path[|ResetPathPrefix|..], Some(q.password), now, c).reply.status == 200
            <==> exists i :: 0 <= i < |store.users| && Auth.ResetUsable(store.users[i], Interpolate(token), now)
  {
  }

  // ---------------------------------------------------------------- forgot-password form

  /** What `handleSubmit` leaves on the page before any answer arrives, and what it sends. */
  datatype ForgotOutcome = ForgotOutcome(message: string, error: string, request: Option<string>)

  function ForgotSubmit(email: string): (r: ForgotOutcome)
    ensures r.message == ""
    ensures r.request.Some? <==> EmailShaped(email)
    ensures r.request.Some? ==> r.request.value == email && r.error == ""
    ensures r.request.None? ==> r.error == "Please enter a valid email address."
  {
    // message and error are cleared first
    var cleared := ForgotOutcome("", "", None);
    if !EmailShaped(email) then cleared.(error := "Please enter a valid email address.")
    else cleared.(request := Some(email))
  }

  /** An email the form sends is never refused as missing; the server answers 404 only for an unknown one. */
  lemma ForgotFormPassesServerCheck(email: string, store: Users.UserStore, token: string, now: nat,
                                    mailSent: bool)
    requires ForgotSubmit(email).request.Some?
    ensures var r := Auth.ForgotPassword(store, ForgotSubmit(email).request, token, now, mailSent);
            r.reply.status != 400 && (r.reply.status == 404 <==> Users.FindByEmail(store, email).None?)
  {
  }

  // ---------------------------------------------------------------- protected routes

  /** `isTokenValid` on the value read from local storage. */
  function IsTokenValid(stored: Option<string>): (ok: bool)
    ensures ok <==> && stored.Some?
                    && stored.value != "undefined" && stored.value != "null"
                    && !AllSpace(stored.value)
  {
    TrimEmptyIff(stored.GetOr(""));
    match stored
    case None => false
    case Some(t) => t != "" && t != "undefined" && t != "null" && Trim(t) != ""
  }

  /** A token the protected pages accept is one the client attaches to its requests. */
  lemma ValidTokenIsSent(stored: Option<string>)
    requires IsTokenValid(stored)
    ensures Guard.BearerHeader(stored) == Some(Guard.BearerPrefix + stored.value)
  {
  }
}
