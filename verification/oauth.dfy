/**
 * Federated sign-in with Google: the strategy's verify callback, which finds or
 * creates the account for the profile's first email, and the callback URL the
 * strategy is configured with.
 */
module OAuth {
  import opened Wrappers
  import opened Text
  import opened Users
  import Routes

  /** The stored password of accounts created by federated sign-in: a marker, not a hash. */
  const FederatedPassword: string := "google-auth"

  /** The parts of the provider's profile the callback reads. */
  datatype GoogleProfile = GoogleProfile(displayName: string, emails: seq<string>)

  /** How the callback calls `done`: `done(null, false)`, `done(null, user)` or `done(err)`. */
  datatype Done = NoAccount | SignedIn(user: User) | Errored

  datatype Linked = Linked(done: Done, store: UserStore)

  /** `profile.emails?.[0]?.value`, with the empty string standing for a missing one. */
  function CandidateEmail(p: GoogleProfile): (e: string)
    ensures |p.emails| > 0 ==> e == p.emails[0]
    ensures |p.emails| == 0 ==> e == ""
  {
    if |p.emails| > 0 then p.emails[0] else ""
  }

  /**
   * Find-or-create by email. Without an email no account is touched; an existing
   * account with that email is reused as it is; otherwise exactly one account is
   * created, named after the profile, with the federated marker as password.
   */
  function GoogleVerify(store: UserStore, p: GoogleProfile): (r: Linked)
    ensures CandidateEmail(p) == "" ==> r == Linked(NoAccount, store)
    ensures r.done.SignedIn? ==> r.done.user.email == CandidateEmail(p) && r.done.user in r.store.users
    ensures FindByEmail(store, CandidateEmail(p)).Some? && CandidateEmail(p) != "" ==>
      r == Linked(SignedIn(store.users[FindByEmail(store, CandidateEmail(p)).value]), store)
    ensures r.store != store ==>
      && r.done == SignedIn(User(store.nextId, p.displayName, CandidateEmail(p), Some(FederatedPassword), None, None))
      && r.store.users == store.users + [r.done.user]
    ensures r.done.Errored? <==> CandidateEmail(p) != "" && FindByEmail(store, CandidateEmail(p)).None?
                                 && p.displayName == ""
    ensures r.done.Errored? || r.done.NoAccount? ==> r.store == store
    ensures r.done.NoAccount? <==> CandidateEmail(p) == ""
    ensures CandidateEmail(p) != "" && FindByEmail(store, CandidateEmail(p)).None? && p.displayName != "" ==>
      && r.store.users == store.users + [User(store.nextId, p.displayName, CandidateEmail(p),
                                              Some(FederatedPassword), None, None)]
      && r.done == SignedIn(r.store.users[|store.users|])
    ensures Valid(store) ==> Valid(r.store)
  {
    var email := CandidateEmail(p);
    if email == "" then Linked(NoAccount, store)
    else match FindByEmail(store, email)
      case Some(i) => Linked(SignedIn(store.users[i]), store)
      case None =>
        match Create(store, p.displayName, email, Some(FederatedPassword))
        case Created(s', id) => Linked(SignedIn(s'.users[|store.users|]), s')
        case Rejected(_) => Linked(Errored, store)
  }

  /** Two sign-ins with the same email resolve to the same account, and the store grows by at most one. */
  lemma GoogleVerifyTwice(store: UserStore, p1: GoogleProfile, p2: GoogleProfile)
    requires Valid(store)
    requires CandidateEmail(p1) == CandidateEmail(p2)
    requires GoogleVerify(store, p1).done.SignedIn?
    ensures var l1 := GoogleVerify(store, p1);
            var l2 := GoogleVerify(l1.store, p2);
            && l2 == Linked(l1.done, l1.store)
            && |l2.store.users| <= |store.users| + 1
  {
    var l1 := GoogleVerify(store, p1);
    var u := l1.done.user;
    var i :| 0 <= i < |l1.store.users| && l1.store.users[i] == u;
    FindByEmailUnique(l1.store, u.email, i);
  }

  /** `getCallbackURL`: `env` gives NODE_ENV, BACKEND_URL and PORT, each possibly unset. */
  datatype ServerEnv = ServerEnv(nodeEnv: Option<string>, backendUrl: Option<string>, port: Option<string>)

  const CallbackPath: string := "/api/auth/google/callback"

  /** The redirect URI registered with the provider. */
  function CallbackUrl(env: ServerEnv): (url: string)
    ensures EndsWith(url, CallbackPath)
    ensures env.nodeEnv == Some("production") ==> url == Interpolate(env.backendUrl) + CallbackPath
    ensures env.nodeEnv != Some("production") ==>
      url == "http://localhost:" + Routes.PortText(env.port) + CallbackPath
    ensures env.nodeEnv != Some("production") && Truthy(env.port) ==>
      url == "http://localhost:" + env.port.value + CallbackPath
    ensures env.nodeEnv != Some("production") && !Truthy(env.port) ==>
      url == "http://localhost:" + Routes.DefaultPort + CallbackPath
  {
    var prefix :=
      if env.nodeEnv == Some("production") then Interpolate(env.backendUrl)
      else "http://localhost:" + Routes.PortText(env.port);
    var url := prefix + CallbackPath;
    assert url[|prefix|..] == CallbackPath;
    url
  }

  /**
   * The callback URL lands on the server's callback route: its path is the
   * router's `/auth/google/callback` under the `/api` mount, and in development
   * its port is the one the server listens on.
   */
  lemma CallbackUrlReachesCallbackRoute(env: ServerEnv)
    ensures CallbackPath == Routes.Mounted(Routes.GoogleCallbackRoute)
    ensures env.nodeEnv == Some("production") ==>
      CallbackUrl(env) == Interpolate(env.backendUrl) + Routes.Mounted(Routes.GoogleCallbackRoute)
    ensures env.nodeEnv != Some("production") ==>
      && CallbackUrl(env) == "http://localhost:" + Routes.PortText(env.port)
                             + Routes.Mounted(Routes.GoogleCallbackRoute)
      && ParseInt(Routes.PortText(env.port)) == Routes.ListenPort(env.port)
  {
    assert CallbackPath[..4] == Routes.ApiMount && CallbackPath[4..] == Routes.GoogleCallbackRoute;
    assert CallbackPath == CallbackPath[..4] + CallbackPath[4..];
  }
}
