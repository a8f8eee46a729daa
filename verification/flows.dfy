/**
 * Journeys across client and server: the token a login hands out, carried by the
 * client, authenticates as the account that logged in; and a journal form the
 * client accepts is stored once for today, while a second one that day is refused.
 */
module Scenarios {
  import opened Wrappers
  import opened Http
  import opened Crypto
  import opened Users
  import Auth
  import Guard
  import Journal
  import Dates
  import Forms
  import Text

  /** The token in a successful login's reply, sent back by the client, makes the guard act as that account. */
  lemma LoginTokenAuthenticates(store: UserStore, email: string, password: string, c: Primitives)
    requires TokensSound(c)
    requires Auth.Login(store, Some(email), Some(password), c).status == 200
    ensures var r := Auth.Login(store, Some(email), Some(password), c);
            && r.body.Session?
            && FindByEmail(store, email).Some?
            && r.body.user.id == store.users[FindByEmail(store, email).value].id
            && Guard.Authenticate(Guard.BearerHeader(Some(r.body.token)), c) == Guard.Proceed(r.body.user.id)
  {
    var r := Auth.Login(store, Some(email), Some(password), c);
    Guard.SignedTokenAccepted(r.body.user.id, c);
  }

  /** A newly registered account can log in at once and its token reaches protected routes as its own id. */
  lemma RegisterLoginAuthenticate(store: UserStore, username: string, email: string, password: string,
                                  c: Primitives)
    requires HashSound(c) && TokensSound(c) && Valid(store)
    requires Auth.Register(store, Some(username), Some(email), Some(password), c).reply.status == 201
    ensures var s' := Auth.Register(store, Some(username), Some(email), Some(password), c).store;
            var r := Auth.Login(s', Some(email), Some(password), c);
            r.status == 200 && Guard.Authenticate(Guard.BearerHeader(Some(r.body.token)), c)
                               == Guard.Proceed(store.nextId)
  {
    Auth.RegisterThenLogin(store, username, email, password, c);
    Guard.SignedTokenAccepted(store.nextId, c);
  }

  /** A form whose three statuses are among the schema's values. */
  predicate KnownStatuses(f: Forms.JournalForm) {
    && f.chanting in {"yes", "no"} && f.reading in {"yes", "no"} && f.katha in {"yes", "no"}
  }

  /** An accepted form with known statuses and numeric rounds gives a request the schema turns into a document. */
  lemma AcceptedFormIsStorable(f: Forms.JournalForm, user: nat, day: string)
    requires Forms.JournalErrors(f) == map[] && KnownStatuses(f)
    requires f.chanting == "yes" ==> Text.ParseInt(f.rounds).Some?
    requires |day| > 0
    ensures !Journal.Incomplete(Forms.JournalPayload(f))
    ensures Journal.ToEntry(Forms.JournalPayload(f), user, day).Some?
  {
    Forms.JournalFormPassesServerCheck(f);
  }

  /**
   * A journal form the client accepts, with known statuses and numeric rounds,
   * submitted on a day the user has no entry, is stored under that day's date;
   * any later complete submission that day is answered 409.
   */
  lemma FormSavedOncePerDay(store: Journal.JournalStore, user: nat, f: Forms.JournalForm,
                            t: Dates.Instant, later: Journal.JournalRequest, t2: Dates.Instant)
    requires Forms.JournalErrors(f) == map[] && KnownStatuses(f)
    requires f.chanting == "yes" ==> Text.ParseInt(f.rounds).Some?
    requires Dates.ValidInstant(t) && Dates.ValidInstant(t2) && t2.date == t.date
    requires !Journal.HasEntry(store, user, Dates.FormatDate(t.date))
    requires !Journal.Incomplete(later)
    ensures var s1 := Journal.Save(store, user, Forms.JournalPayload(f), Dates.ToIsoString(t));
            && s1.reply.status == 201
            && s1.store[|store|].user == user
            && s1.store[|store|].date == Dates.FormatDate(t.date)
            && Journal.Save(s1.store, user, later, Dates.ToIsoString(t2)).reply.status == 409
  {
    var req := Forms.JournalPayload(f);
    var iso := Dates.ToIsoString(t);
    Dates.TodayOfIsoString(t);
    Dates.TodayOfIsoString(t2);
    AcceptedFormIsStorable(f, user, Dates.Today(iso));
    Journal.SecondSaveSameDayConflicts(store, user, req, later, iso, Dates.ToIsoString(t2));
  }
}
