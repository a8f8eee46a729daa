/**
 * The credential handlers as transitions over the user store: register, login,
 * change password, forgot password and reset password. Each takes the request's
 * fields (absent or a string), the store, and the opaque crypto primitives, and
 * returns the reply sent together with the store after the handler's writes.
 * The clock (`now`, in milliseconds) and the random reset token are parameters.
 */
module Auth {
  import opened Wrappers
  import opened Text
  import opened Http
  import opened Crypto
  import opened Users

  /** Fifteen minutes in milliseconds: how long a reset token stays usable. */
  const ResetWindow: nat := 15 * 60 * 1000

  datatype Step = Step(reply: Reply, store: UserStore)

  /** The user object returned on login: id, username and email only. */
  function PublicProfile(u: User): (p: Profile)
    ensures p.id == u.id && p.username == u.username && p.email == u.email
  {
    Profile(u.id, u.username, u.email)
  }

  // ---------------------------------------------------------------- register

  /** Hash-then-save of a new account, the common tail of both register variants. */
  function SaveNewUser(store: UserStore, username: string, email: string, hashed: string): Step {
    match Create(store, username, email, Some(hashed))
    case Created(s', _) => Step(Reply(201, Message("User registered successfully!")), s')
    case Rejected(_) => Step(Reply(500, Failure("Server error.")), store)
  }

  /**
   * Registration with the duplicate-email branch returning after its reply.
   * A refused registration leaves the store as it was; an accepted one adds
   * exactly one user, whose stored password is the hash of the submitted one.
   */
  function Register(store: UserStore, username: Option<string>, email: Option<string>,
                    password: Option<string>, c: Primitives): (r: Step)
    ensures r.reply.status == 201 || r.reply.status == 400
    ensures r.reply.status == 201 <==>
      Truthy(username) && Truthy(email) && Truthy(password) && FindByEmail(store, email.value).None?
    ensures r.reply.status == 400 ==> r.store == store && r.reply.body.Failure?
    ensures r.reply.status == 201 ==>
      r.store.users == store.users + [User(store.nextId, username.value, email.value,
                                           Some(c.hash(password.value)), None, None)]
    ensures Valid(store) ==> Valid(r.store)
  {
    if !Truthy(username) || !Truthy(email) || !Truthy(password) then
      Step(Reply(400, Failure("All fields are required!")), store)
    else if FindByEmail(store, email.value).Some? then
      Step(Reply(400, Failure("Email already in use!")), store)
    else
      SaveNewUser(store, username.value, email.value, c.hash(password.value))
  }

  /** Every reply a handler attempted, in order, and the store it left. Only the first reply reaches the client. */
  datatype Attempt = Attempt(replies: seq<Reply>, store: UserStore)

  /**
   * Registration as the handler is written: the duplicate-email branch sends its
   * reply but does not return, so the handler goes on to hash and save; the
   * unique email index refuses the save and the handler then tries to send a
   * second reply.
   */
  function RegisterAsWritten(store: UserStore, username: Option<string>, email: Option<string>,
                             password: Option<string>, c: Primitives): (r: Attempt)
    ensures |r.replies| >= 1
  {
    if !Truthy(username) || !Truthy(email) || !Truthy(password) then
      Attempt([Reply(400, Failure("All fields are required!"))], store)
    else
      var early := if FindByEmail(store, email.value).Some?
                   then [Reply(400, Failure("Email already in use!"))] else [];
      var saved := SaveNewUser(store, username.value, email.value, c.hash(password.value));
      Attempt(early + [saved.reply], saved.store)
  }

  /** On an email already in use, the handler as written answers twice: 400, then 500 from the refused save. */
  lemma RegisterAsWrittenRepliesTwice(store: UserStore, username: string, email: string,
                                      password: string, c: Primitives)
    requires |username| > 0 && |email| > 0 && |password| > 0
    requires FindByEmail(store, email).Some?
    ensures RegisterAsWritten(store, Some(username), Some(email), Some(password), c).replies
            == [Reply(400, Failure("Email already in use!")), Reply(500, Failure("Server error."))]
  {
  }

  /** Apart from the extra reply, the handler as written behaves as the corrected one: the client
      receives the same first reply, the store ends the same, and the index keeps emails unique. */
  lemma RegisterAsWrittenAgrees(store: UserStore, username: Option<string>, email: Option<string>,
                                password: Option<string>, c: Primitives)
    ensures var a := RegisterAsWritten(store, username, email, password, c);
            var r := Register(store, username, email, password, c);
            a.replies[0] == r.reply && a.store == r.store
    ensures var a := RegisterAsWritten(store, username, email, password, c);
            |a.replies| == 1 <==> Register(store, username, email, password, c).reply.status == 201
                                  || !(Truthy(username) && Truthy(email) && Truthy(password))
  {
  }

  // ---------------------------------------------------------------- login

  /** The stored password is present and the submitted one matches it. */
  predicate PasswordMatches(u: User, password: string, c: Primitives) {
    u.password.Some? && c.matches(password, u.password.value)
  }

  /**
   * Password login. Only a 200 carries a token, which is signed over the
   * matching user's id, together with that user's public profile.
   */
  function Login(store: UserStore, email: Option<string>, password: Option<string>,
                 c: Primitives): (r: Reply)
    ensures r.status in {200, 400, 401, 500}
    ensures r.body.Session? <==> r.status == 200
    ensures Truthy(email) && Truthy(password) && FindByEmail(store, email.value).Some? ==>
      var u := store.users[FindByEmail(store, email.value).value];
      && (u.password.None? ==> r.status == 500)
      && (u.password.Some? && !c.matches(password.value, u.password.value) ==> r.status == 401)
      && (PasswordMatches(u, password.value, c) ==> r.status == 200)
    ensures r.status == 400 <==>
      !Truthy(email) || !Truthy(password) || FindByEmail(store, email.value).None?
    ensures r.status == 200 ==>
      && Truthy(email) && Truthy(password)
      && exists i :: 0 <= i < |store.users| && store.users[i].email == email.value
           && PasswordMatches(store.users[i], password.value, c)
           && r.body == Session("Login successful!", c.sign(store.users[i].id), PublicProfile(store.users[i]))
    ensures Valid(store) && Truthy(email) && Truthy(password) ==>
      (r.status == 200 <==> exists i :: 0 <= i < |store.users| && store.users[i].email == email.value
                                        && PasswordMatches(store.users[i], password.value, c))
    ensures r.status == 401 ==> exists i :: 0 <= i < |store.users| && store.users[i].email == email.value
                                   && !PasswordMatches(store.users[i], password.value, c)
  {
    if !Truthy(email) || !Truthy(password) then
      Reply(400, Failure("Email and passwords are required!"))
    else match FindByEmail(store, email.value)
      case None => Reply(400, Failure("User not found!"))
      case Some(i) =>
        var u := store.users[i];
        if u.password.None? then
          // comparing against an absent hash throws
          Reply(500, Failure("Server error during login"))
        else if !c.matches(password.value, u.password.value) then
          Reply(401, Failure("Invalid password!"))
        else
          Reply(200, Session("Login successful!", c.sign(u.id), PublicProfile(u)))
  }

  /** Registering and then logging in with the same email and password succeeds, for the new user. */
  lemma RegisterThenLogin(store: UserStore, username: string, email: string, password: string,
                          c: Primitives)
    requires HashSound(c) && Valid(store)
    requires Register(store, Some(username), Some(email), Some(password), c).reply.status == 201
    ensures var s' := Register(store, Some(username), Some(email), Some(password), c).store;
            Login(s', Some(email), Some(password), c)
            == Reply(200, Session("Login successful!", c.sign(store.nextId),
                                  Profile(store.nextId, username, email)))
  {
    var s' := Register(store, Some(username), Some(email), Some(password), c).store;
    var i := |store.users|;
    assert s'.users[i].email == email;
    FindByEmailUnique(s', email, i);
    assert c.matches(password, c.hash(password));
  }

  // ---------------------------------------------------------------- change password

  /**
   * Change of password by the authenticated user. Any refusal leaves the store
   * unchanged; success replaces that user's password hash and nothing else.
   */
  function ChangePassword(store: UserStore, userId: UserId, currentPassword: Option<string>,
                          newPassword: Option<string>, c: Primitives): (r: Step)
    ensures r.reply.status in {200, 400, 401, 404}
    ensures r.reply.status != 200 ==> r.store == store
    ensures r.reply.status == 400 <==> !Truthy(currentPassword) || !Truthy(newPassword)
    ensures r.reply.status == 404 <==> Truthy(currentPassword) && Truthy(newPassword)
                                       && forall k :: 0 <= k < |store.users| ==> store.users[k].id != userId
    ensures Truthy(currentPassword) && Truthy(newPassword) && FindById(store, userId).Some? ==>
      (r.reply.status == 200 <==>
         c.matches(currentPassword.value, store.users[FindById(store, userId).value].password.GetOr("")))
    ensures Valid(store) && Truthy(currentPassword) && Truthy(newPassword) ==>
      forall i :: 0 <= i < |store.users| && store.users[i].id == userId ==>
        (r.reply.status == 200 <==> c.matches(currentPassword.value, store.users[i].password.GetOr("")))
    ensures r.reply.status == 401 <==> && Truthy(currentPassword) && Truthy(newPassword)
                                       && FindById(store, userId).Some?
                                       && !c.matches(currentPassword.value,
                                                     store.users[FindById(store, userId).value].password.GetOr(""))
    ensures r.reply.status == 200 ==>
      exists i :: && 0 <= i < |store.users| && store.users[i].id == userId
                  && c.matches(currentPassword.value, store.users[i].password.GetOr(""))
                  && OnlyChanged(store, r.store, i)
                  && r.store.users[i] == store.users[i].(password := Some(c.hash(newPassword.value)))
    ensures Valid(store) ==> Valid(r.store)
  {
    if !Truthy(currentPassword) || !Truthy(newPassword) then
      Step(Reply(400, Failure("Both current and new password are required")), store)
    else match FindById(store, userId)
      case None => Step(Reply(404, Failure("User not found")), store)
      case Some(i) =>
        var u := store.users[i];
        assert Valid(store) ==> forall k :: 0 <= k < |store.users| && store.users[k].id == userId ==> k == i by {
          if Valid(store) {
            forall k | 0 <= k < |store.users| && store.users[k].id == userId ensures k == i {
              FindByIdUnique(store, userId, k);
            }
          }
        }
        if !c.matches(currentPassword.value, u.password.GetOr("")) then
          Step(Reply(401, Failure("Current password is incorrect")), store)
        else
          var s' := Replace(store, i, u.(password := Some(c.hash(newPassword.value))));
          Step(Reply(200, Message("Password changed successfully!")), s')
  }

  /** After a successful change, logging in with the new password succeeds. */
  lemma ChangePasswordThenLogin(store: UserStore, userId: UserId, current: string, next: string,
                                c: Primitives)
    requires HashSound(c) && Valid(store)
    requires ChangePassword(store, userId, Some(current), Some(next), c).reply.status == 200
    ensures var s' := ChangePassword(store, userId, Some(current), Some(next), c).store;
            exists i :: 0 <= i < |s'.users| && s'.users[i].id == userId
              && Login(s', Some(s'.users[i].email), Some(next), c).status == 200
  {
    var s' := ChangePassword(store, userId, Some(current), Some(next), c).store;
    var i :| 0 <= i < |store.users| && store.users[i].id == userId && OnlyChanged(store, s', i)
             && s'.users[i] == store.users[i].(password := Some(c.hash(next)));
    FindByEmailUnique(s', s'.users[i].email, i);
    assert c.matches(next, c.hash(next));
  }

  // ---------------------------------------------------------------- forgot password

  /**
   * Request for a reset link. For a known email the user's reset token becomes
   * `token`, expiring `ResetWindow` after `now`, replacing any earlier one. The
   * write happens before the email is sent, so a failed send (`mailSent` false)
   * answers 500 with the token already stored.
   */
  function ForgotPassword(store: UserStore, email: Option<string>, token: string, now: nat,
                          mailSent: bool): (r: Step)
    ensures r.reply.status in {200, 400, 404, 500}
    ensures r.reply.status == 400 <==> !Truthy(email)
    ensures r.reply.status == 404 <==> Truthy(email) && FindByEmail(store, email.value).None?
    ensures r.reply.status == 400 || r.reply.status == 404 ==> r.store == store
    ensures r.reply.status == 200 || r.reply.status == 500 ==>
      (r.reply.status == 200 <==> mailSent) &&
      exists i :: 0 <= i < |store.users| && store.users[i].email == email.value
        && OnlyChanged(store, r.store, i)
        && r.store.users[i] == store.users[i].(resetToken := Some(token),
                                               resetTokenExpiry := Some(now + ResetWindow))
    ensures Valid(store) ==> Valid(r.store)
  {
    if !Truthy(email) then
      Step(Reply(400, Failure("Email is required")), store)
    else match FindByEmail(store, email.value)
      case None => Step(Reply(404, Failure("No user found with this email")), store)
      case Some(i) =>
        var u := store.users[i];
        var s' := Replace(store, i, u.(resetToken := Some(token),
                                       resetTokenExpiry := Some(now + ResetWindow)));
        if mailSent then Step(Reply(200, Message("Reset link sent to your email.")), s')
        else Step(Reply(500, Failure("Error sending reset email.")), s')
  }

  // ---------------------------------------------------------------- reset password

  /** The user holds `token` and its expiry is strictly later than `now`. */
  predicate ResetUsable(u: User, token: string, now: nat) {
    u.resetToken == Some(token) && u.resetTokenExpiry.Some? && now < u.resetTokenExpiry.value
  }

  /** `User.findOne({ resetToken: token, resetTokenExpiry: { $gt: now } })`. */
  function FindByResetToken(store: UserStore, token: string, now: nat): Option<nat> {
    FindFirst(store.users, (u: User) => ResetUsable(u, token, now))
  }

  /**
   * Completion of a reset. It succeeds only for a user holding `token` that has
   * not expired; success stores the new hash and clears both reset fields in the
   * same write. Every refusal leaves the store unchanged.
   */
  function ResetPassword(store: UserStore, token: string, password: Option<string>, now: nat,
                         c: Primitives): (r: Step)
    ensures r.reply.status == 200 || r.reply.status == 400
    ensures r.reply.status == 400 ==> r.store == store
    ensures r.reply.status == 200 <==>
      Truthy(password) && exists i :: 0 <= i < |store.users| && ResetUsable(store.users[i], token, now)
    ensures r.reply.status == 200 ==>
      exists i :: && 0 <= i < |store.users|
                  && ResetUsable(store.users[i], token, now)
                  && OnlyChanged(store, r.store, i)
                  && r.store.users[i] == store.users[i].(password := Some(c.hash(password.value)),
                                                         resetToken := None, resetTokenExpiry := None)
    ensures Valid(store) ==> Valid(r.store)
  {
    if !Truthy(password) then
      Step(Reply(400, Failure("New password is required")), store)
    else match FindByResetToken(store, token, now)
      case None => Step(Reply(400, Failure("Invaild or expired token")), store)
      case Some(i) =>
        var u := store.users[i];
        var s' := Replace(store, i, u.(password := Some(c.hash(password.value)),
                                       resetToken := None, resetTokenExpiry := None));
        Step(Reply(200, Message("Password has been reset successfully!")), s')
  }

  /** No two users hold `token` (the random token did not collide). */
  predicate HeldByAtMostOne(store: UserStore, token: string) {
    forall i, j ::
      (&& 0 <= i < |store.users| && 0 <= j < |store.users|
       && store.users[i].resetToken == Some(token) && store.users[j].resetToken == Some(token))
      ==> i == j
  }

  /** A reset token works once: after a successful reset, the same token is refused, at any time. */
  lemma ResetSingleUse(store: UserStore, token: string, password: Option<string>, now: nat,
                       password2: Option<string>, now2: nat, c: Primitives)
    requires HeldByAtMostOne(store, token)
    requires ResetPassword(store, token, password, now, c).reply.status == 200
    ensures var s1 := ResetPassword(store, token, password, now, c).store;
            var r2 := ResetPassword(s1, token, password2, now2, c);
            r2.reply.status == 400 && r2.store == s1
  {
    var s1 := ResetPassword(store, token, password, now, c).store;
    var i :| 0 <= i < |store.users| && ResetUsable(store.users[i], token, now)
             && OnlyChanged(store, s1, i) && s1.users[i].resetToken.None?;
    forall k | 0 <= k < |s1.users| ensures !ResetUsable(s1.users[k], token, now2) {
      if k != i {
        assert s1.users[k] == store.users[k];
      }
    }
  }

  /** A link requested at `now0` resets the password at `now1` exactly when fewer than fifteen minutes have passed. */
  lemma ForgotThenReset(store: UserStore, email: string, token: string, now0: nat, mailSent: bool,
                        password: string, now1: nat, c: Primitives)
    requires |email| > 0 && |password| > 0
    requires FindByEmail(store, email).Some?
    requires forall k :: 0 <= k < |store.users| ==> store.users[k].resetToken != Some(token)
    ensures var s1 := ForgotPassword(store, Some(email), token, now0, mailSent).store;
            ResetPassword(s1, token, Some(password), now1, c).reply.status == 200
            <==> now1 < now0 + ResetWindow
  {
    var s1 := ForgotPassword(store, Some(email), token, now0, mailSent).store;
    var i := FindByEmail(store, email).value;
    assert s1.users[i].resetToken == Some(token);
    assert s1.users[i].resetTokenExpiry == Some(now0 + ResetWindow);
    forall k | 0 <= k < |s1.users| && k != i ensures !ResetUsable(s1.users[k], token, now1) {
      assert s1.users[k] == store.users[k];
    }
  }

  /** A second request supersedes the first: the earlier token no longer resets the password. */
  lemma ForgotOverwritesToken(store: UserStore, email: string, token1: string, now0: nat,
                              token2: string, now1: nat, password: string, now2: nat, c: Primitives)
    requires |email| > 0 && token1 != token2
    requires FindByEmail(store, email).Some?
    requires forall k :: 0 <= k < |store.users| ==> store.users[k].resetToken != Some(token1)
    ensures var s1 := ForgotPassword(store, Some(email), token1, now0, true).store;
            var s2 := ForgotPassword(s1, Some(email), token2, now1, true).store;
            ResetPassword(s2, token1, Some(password), now2, c).reply.status == 400
  {
    var s1 := ForgotPassword(store, Some(email), token1, now0, true).store;
    var s2 := ForgotPassword(s1, Some(email), token2, now1, true).store;
    var i := FindByEmail(store, email).value;
    assert s1.users[i].email == email;
    assert FindByEmail(s1, email) == Some(i);
    assert s2.users[i].resetToken == Some(token2);
    forall k | 0 <= k < |s2.users| ensures s2.users[k].resetToken != Some(token1) {
      if k != i {
        assert s2.users[k] == s1.users[k] == store.users[k];
      }
    }
  }
}
