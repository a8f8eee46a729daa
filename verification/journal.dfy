/**
 * The `Journal` collection and its two handlers: submission of today's entry
 * (field-presence checks, the one-entry-per-day check, then the save under the
 * schema's enum validation and the unique (user, date) index), and retrieval of
 * one user's entries newest day first.
 */
module Journal {
  import opened Wrappers
  import opened Text
  import opened Http
  import opened Dates

  datatype Status = Yes | No

  /** The schema's enum `["yes", "no"]`: any other string fails validation on save. */
  function ParseStatus(s: string): (r: Option<Status>)
    ensures r == Some(Yes) <==> s == "yes"
    ensures r == Some(No) <==> s == "no"
  {
    if s == "yes" then Some(Yes) else if s == "no" then Some(No) else None
  }

  /** `rounds` is optional and stored as given, whatever the status. */
  datatype Chanting = Chanting(status: Status, rounds: Option<int>)

  datatype Entry = Entry(user: nat, chanting: Chanting, reading: Status, katha: Status,
                         gratitude: string, date: string)

  /** The collection, in insertion order. */
  type JournalStore = seq<Entry>

  /** What the unique compound index is over. */
  predicate SameDay(a: Entry, b: Entry) {
    a.user == b.user && a.date == b.date
  }

  /** The unique (user, date) index: at most one entry per user per day. */
  predicate OnePerDay(s: JournalStore) {
    forall i, j :: 0 <= i < j < |s| ==> !SameDay(s[i], s[j])
  }

  predicate HasEntry(s: JournalStore, user: nat, date: string) {
    exists k :: 0 <= k < |s| && s[k].user == user && s[k].date == date
  }

  // ---------------------------------------------------------------- request

  datatype ChantingField = ChantingField(status: Option<string>, rounds: Option<int>)
  datatype StatusField = StatusField(status: Option<string>)

  /** The request body; every part may be absent. */
  datatype JournalRequest = JournalRequest(
    chanting: Option<ChantingField>,
    reading: Option<StatusField>,
    katha: Option<StatusField>,
    gratitude: Option<string>)

  /** JavaScript truthiness of a number: present and not zero. */
  predicate TruthyNumber(n: Option<int>) {
    n.Some? && n.value != 0
  }

  predicate HasStatus(f: Option<StatusField>) {
    f.Some? && Truthy(f.value.status)
  }

  /** The handler's 400 condition: a missing status, chanting "yes" without truthy rounds, or a blank gratitude. */
  predicate Incomplete(req: JournalRequest) {
    || req.chanting.None? || !Truthy(req.chanting.value.status)
    || (req.chanting.value.status == Some("yes") && !TruthyNumber(req.chanting.value.rounds))
    || !HasStatus(req.reading)
    || !HasStatus(req.katha)
    || req.gratitude.None? || Trim(req.gratitude.value) == []
  }

  /**
   * The server's rounds rule, the other fields being present: rounds matter only
   * when chanting is "yes", and then only absent or 0 is refused; negative counts pass.
   */
  lemma RoundsRule(req: JournalRequest)
    requires req.chanting.Some? && Truthy(req.chanting.value.status)
    requires HasStatus(req.reading) && HasStatus(req.katha)
    requires req.gratitude.Some? && Trim(req.gratitude.value) != []
    ensures Incomplete(req) <==> && req.chanting.value.status == Some("yes")
                                 && (req.chanting.value.rounds.None? || req.chanting.value.rounds == Some(0))
  {
  }

  /** The document `new Journal({...})` builds; absent when schema validation would refuse it. */
  function ToEntry(req: JournalRequest, user: nat, today: string): (r: Option<Entry>)
    requires !Incomplete(req)
    ensures r.Some? <==> && ParseStatus(req.chanting.value.status.value).Some?
                         && ParseStatus(req.reading.value.status.value).Some?
                         && ParseStatus(req.katha.value.status.value).Some?
                         && |today| > 0
    ensures r.Some? ==> && r.value.user == user && r.value.date == today
                        && r.value.gratitude == Trim(req.gratitude.value) && |r.value.gratitude| > 0
                        && r.value.chanting.rounds == req.chanting.value.rounds
    ensures r.Some? ==> && Some(r.value.chanting.status) == ParseStatus(req.chanting.value.status.value)
                        && Some(r.value.reading) == ParseStatus(req.reading.value.status.value)
                        && Some(r.value.katha) == ParseStatus(req.katha.value.status.value)
    ensures r.Some? ==> !IsSpace(r.value.gratitude[0]) && !IsSpace(r.value.gratitude[|r.value.gratitude| - 1])
  {
    TrimHasNoOuterSpace(req.gratitude.value);
    var c := ParseStatus(req.chanting.value.status.value);
    var rd := ParseStatus(req.reading.value.status.value);
    var k := ParseStatus(req.katha.value.status.value);
    if c.None? || rd.None? || k.None? || |today| == 0 then None
    else Some(Entry(user, Chanting(c.value, req.chanting.value.rounds), rd.value, k.value,
                    Trim(req.gratitude.value), today))
  }

  /** `save()` against the unique (user, date) index: refused when that day is taken. */
  function InsertEntry(s: JournalStore, e: Entry): (r: Option<JournalStore>)
    ensures r.None? <==> HasEntry(s, e.user, e.date)
    ensures r.Some? ==> r.value == s + [e]
    ensures r.Some? && OnePerDay(s) ==> OnePerDay(r.value)
  {
    if HasEntry(s, e.user, e.date) then None else Some(s + [e])
  }

  datatype Step = Step(reply: Reply, store: JournalStore)

  /**
   * `journalSave` with the duplicate check reading `seen` and the write going to
   * `store`. Run alone, a request sees the store it writes to (`Save`); `seen`
   * differs only when another submission was saved in between.
   */
  function SaveInterleaved(seen: JournalStore, store: JournalStore, user: nat,
                           req: JournalRequest, isoNow: string): (r: Step)
    ensures r.reply.status in {201, 400, 409, 500}
    ensures r.reply.status != 201 ==> r.store == store
    ensures r.reply.status == 400 <==> Incomplete(req)
    ensures r.reply.status == 409 <==> !Incomplete(req) && HasEntry(seen, user, Today(isoNow))
    ensures r.reply.status == 500 <==>
      && !Incomplete(req) && !HasEntry(seen, user, Today(isoNow))
      && (ToEntry(req, user, Today(isoNow)).None? || HasEntry(store, user, Today(isoNow)))
    ensures r.reply.status == 201 ==>
      && ToEntry(req, user, Today(isoNow)).Some?
      && r.store == store + [ToEntry(req, user, Today(isoNow)).value]
    ensures OnePerDay(store) ==> OnePerDay(r.store)
  {
    var today := Today(isoNow);
    if Incomplete(req) then
      Step(Reply(400, Failure("All fields are required")), store)
    else if HasEntry(seen, user, today) then
      Step(Reply(409, Failure("Journal already submitted today.")), store)
    else match ToEntry(req, user, today)
      case None => Step(Reply(500, Failure("Server error while saving journal")), store)
      case Some(e) =>
        match InsertEntry(store, e)
        case None => Step(Reply(500, Failure("Server error while saving journal")), store)
        case Some(s') => Step(Reply(201, Message("Journal saved successfully!")), s')
  }

  /**
   * Submission of today's entry. Only a 201 changes the store, and it adds
   * exactly one entry, for the acting user and today's date.
   */
  function Save(store: JournalStore, user: nat, req: JournalRequest, isoNow: string): (r: Step)
    ensures r.reply.status in {201, 400, 409, 500}
    ensures r.reply.status != 201 ==> r.store == store
    ensures r.reply.status == 400 <==> Incomplete(req)
    ensures r.reply.status == 409 <==> !Incomplete(req) && HasEntry(store, user, Today(isoNow))
    ensures r.reply.status == 500 <==> !Incomplete(req) && !HasEntry(store, user, Today(isoNow))
                                       && ToEntry(req, user, Today(isoNow)).None?
    ensures r.reply.status == 201 ==>
      && ToEntry(req, user, Today(isoNow)).Some?
      && r.store == store + [ToEntry(req, user, Today(isoNow)).value]
    ensures OnePerDay(store) ==> OnePerDay(r.store)
  {
    SaveInterleaved(store, store, user, req, isoNow)
  }

  /** A second submission on the same day, whatever it holds, is answered 409 and stores nothing. */
  lemma SecondSaveSameDayConflicts(store: JournalStore, user: nat, req1: JournalRequest,
                                   req2: JournalRequest, iso1: string, iso2: string)
    requires Save(store, user, req1, iso1).reply.status == 201
    requires !Incomplete(req2) && Today(iso1) == Today(iso2)
    ensures var s1 := Save(store, user, req1, iso1).store;
            Save(s1, user, req2, iso2) == Step(Reply(409, Failure("Journal already submitted today.")), s1)
  {
    var s1 := Save(store, user, req1, iso1).store;
    assert s1[|store|].user == user && s1[|store|].date == Today(iso2);
  }

  /** A request that passed the duplicate check but finds the day taken at write time is refused by the
      index, and the refusal is reported as 500, not 409. */
  lemma RacedDuplicateIsServerError(seen: JournalStore, store: JournalStore, user: nat,
                                    req: JournalRequest, isoNow: string)
    requires !Incomplete(req) && !HasEntry(seen, user, Today(isoNow))
    requires ToEntry(req, user, Today(isoNow)).Some?
    requires HasEntry(store, user, Today(isoNow))
    ensures SaveInterleaved(seen, store, user, req, isoNow)
            == Step(Reply(500, Failure("Server error while saving journal")), store)
  {
  }

  /** One submission: the acting user, the request body, and the clock reading. */
  datatype Submission = Submission(user: nat, req: JournalRequest, isoNow: string)

  /** The store after handling `batch` one request after another. */
  function SaveAll(store: JournalStore, batch: seq<Submission>): JournalStore
    decreases |batch|
  {
    if |batch| == 0 then store
    else SaveAll(Save(store, batch[0].user, batch[0].req, batch[0].isoNow).store, batch[1..])
  }

  /** Across any sequence of submissions, no two entries share a user and a day. */
  lemma {:induction false} SaveAllOnePerDay(store: JournalStore, batch: seq<Submission>)
    requires OnePerDay(store)
    ensures OnePerDay(SaveAll(store, batch))
    ensures |SaveAll(store, batch)| <= |store| + |batch|
    decreases |batch|
  {
    if |batch| > 0 {
      var s1 := Save(store, batch[0].user, batch[0].req, batch[0].isoNow).store;
      SaveAllOnePerDay(s1, batch[1..]);
    }
  }

  // ---------------------------------------------------------------- retrieval

  /** `find({ user })`: the user's entries in store order. */
  function EntriesOf(s: JournalStore, user: nat): (r: seq<Entry>)
    ensures forall k :: 0 <= k < |r| ==> r[k].user == user
    ensures multiset(r) <= multiset(s)
    ensures forall e :: e in r <==> e in s && e.user == user
  {
    if |s| == 0 then []
    else
      assert s == [s[0]] + s[1..];
      if s[0].user == user then [s[0]] + EntriesOf(s[1..], user) else EntriesOf(s[1..], user)
  }

  /** Adjacent entries are in non-increasing date order. */
  predicate NewestFirst(r: seq<Entry>) {
    forall k :: 0 <= k < |r| - 1 ==> !LexLess(r[k].date, r[k + 1].date)
  }

  /** Places `e` before the first entry with an earlier date. */
  function InsertByDate(e: Entry, s: seq<Entry>): (r: seq<Entry>)
    requires NewestFirst(s)
    ensures multiset(r) == multiset([e] + s)
    ensures NewestFirst(r)
    ensures |r| > 0 && (r[0] == e || (|s| > 0 && r[0] == s[0]))
  {
    if |s| == 0 then [e]
    else if !LexLess(e.date, s[0].date) then [e] + s
    else
      LexLessAsymmetric(e.date, s[0].date);
      var t := InsertByDate(e, s[1..]);
      assert s == [s[0]] + s[1..];
      assert multiset([e] + s) == multiset([s[0]]) + multiset([e] + s[1..]);
      [s[0]] + t
  }

  /** `.sort({ date: -1 })`. */
  function SortByDateDesc(s: seq<Entry>): (r: seq<Entry>)
    ensures multiset(r) == multiset(s)
    ensures forall e :: e in r <==> e in s
    ensures NewestFirst(r)
  {
    if |s| == 0 then []
    else
      var t := SortByDateDesc(s[1..]);
      var r := InsertByDate(s[0], t);
      assert s == [s[0]] + s[1..];
      assert multiset(r) == multiset([s[0]]) + multiset(t) == multiset(s);
      assert forall e :: e in r <==> e in multiset(r);
      r
  }

  /** `getJournal`: exactly the acting user's entries, newest day first. */
  function GetJournal(store: JournalStore, user: nat): (r: seq<Entry>)
    ensures forall k :: 0 <= k < |r| ==> r[k].user == user
    ensures forall e :: e in store && e.user == user <==> e in r
    ensures multiset(r) <= multiset(store)
    ensures NewestFirst(r)
  {
    var f := EntriesOf(store, user);
    var r := SortByDateDesc(f);
    assert forall k :: 0 <= k < |r| ==> r[k] in f;
    r
  }

  /** In a store keeping one entry per day, no entry is stored twice. */
  lemma {:induction false} OnePerDayNoRepeats(s: JournalStore, x: Entry)
    requires OnePerDay(s)
    ensures multiset(s)[x] <= 1
  {
    if |s| > 0 {
      var tail := s[1..];
      assert s == [s[0]] + tail;
      assert OnePerDay(tail) by {
        forall i, j | 0 <= i < j < |tail| ensures !SameDay(tail[i], tail[j]) {
          assert tail[i] == s[i + 1] && tail[j] == s[j + 1];
        }
      }
      OnePerDayNoRepeats(tail, x);
      if s[0] == x {
        forall k | 0 <= k < |tail| ensures tail[k] != x {
          assert !SameDay(s[0], s[k + 1]);
        }
        assert multiset(tail)[x] == 0;
      }
    }
  }

  /** An entry at two positions of `r` occurs at least twice in it. */
  lemma RepeatCountsTwice(r: seq<Entry>, i: nat, j: nat)
    requires i < j < |r| && r[i] == r[j]
    ensures multiset(r)[r[i]] >= 2
  {
    var front, back := r[..j], r[j..];
    assert r == front + back;
    assert front[i] == r[i];
    assert back[0] == r[j];
    assert multiset(r) == multiset(front) + multiset(back);
  }

  /** In a store keeping one entry per day, a sequence drawn from it without repetition keeps that property. */
  lemma SubMultisetOnePerDay(r: seq<Entry>, s: JournalStore)
    requires OnePerDay(s) && multiset(r) <= multiset(s)
    ensures OnePerDay(r)
  {
    forall i, j | 0 <= i < j < |r| ensures !SameDay(r[i], r[j]) {
      if r[i] == r[j] {
        RepeatCountsTwice(r, i, j);
        OnePerDayNoRepeats(s, r[i]);
        assert false;
      }
      assert r[i] in multiset(r) && r[j] in multiset(r);
      var p :| 0 <= p < |s| && s[p] == r[i];
      var q :| 0 <= q < |s| && s[q] == r[j];
      if p < q {
        assert !SameDay(s[p], s[q]);
      } else {
        assert !SameDay(s[q], s[p]);
      }
    }
  }

  /** With one entry per day, retrieval lists strictly newer days before older ones: no day appears twice. */
  lemma GetJournalStrictlyNewestFirst(store: JournalStore, user: nat)
    requires OnePerDay(store)
    ensures var r := GetJournal(store, user);
            forall i, j :: 0 <= i < j < |r| ==> LexLess(r[j].date, r[i].date)
  {
    var r := GetJournal(store, user);
    SubMultisetOnePerDay(r, store);
    forall k | 0 <= k < |r| - 1 ensures LexLess(r[k + 1].date, r[k].date) {
      assert !SameDay(r[k], r[k + 1]);
      LexLessTotal(r[k].date, r[k + 1].date);
    }
    StrictFromAdjacent(r);
  }

  lemma {:induction false} StrictFromAdjacent(r: seq<Entry>)
    requires forall k :: 0 <= k < |r| - 1 ==> LexLess(r[k + 1].date, r[k].date)
    ensures forall i, j :: 0 <= i < j < |r| ==> LexLess(r[j].date, r[i].date)
  {
    if |r| > 1 {
      StrictFromAdjacent(r[1..]);
      forall j | 1 < j < |r| ensures LexLess(r[j].date, r[0].date) {
        assert r[1..][j - 1] == r[j];
        LexLessTransitive(r[j].date, r[1].date, r[0].date);
      }
      forall i, j | 0 < i < j < |r| ensures LexLess(r[j].date, r[i].date) {
        assert r[1..][i - 1] == r[i] && r[1..][j - 1] == r[j];
      }
    }
  }

  /** For entries dated by the server's `YYYY-MM-DD` days, newest first is reverse chronological order. */
  lemma GetJournalChronological(store: JournalStore, user: nat, d1: Date, d2: Date)
    requires OnePerDay(store) && ValidDate(d1) && ValidDate(d2)
    ensures var r := GetJournal(store, user);
            forall i, j :: 0 <= i < j < |r| && r[i].date == FormatDate(d1) && r[j].date == FormatDate(d2)
                           ==> Before(d2, d1)
  {
    GetJournalStrictlyNewestFirst(store, user);
    FormatDateOrder(d2, d1);
  }
}
