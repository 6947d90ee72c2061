/**
 * The administrators' sign-in page (login-script.js): the allow-listed
 * credentials, the count of failed attempts kept in local storage, the
 * fifteen-minute lockout after the fifth failure and the notice the page
 * shows about them. The browser's storage is a value passed in and handed
 * back; the clock is the `now` parameter, in milliseconds.
 */
module Login {
  import opened Wrappers
  import Text

  /** `maxAttempts`. */
  const MaxAttempts: nat := 5
  /** `lockoutDuration`: fifteen minutes. */
  const LockoutDuration: int := 15 * 60 * 1000
  /** Failed attempts older than one hour are forgotten. */
  const AttemptWindow: int := 3600000

  /** The `sasce_login_attempts` entry. */
  datatype Attempts = Attempts(count: nat, timestamp: int)
  /** The `sasce_login_lockout` entry. */
  datatype Lockout = Lockout(isLocked: bool, lockoutEnd: int, timestamp: int)
  /** The `sasce_admin_session` entry (its `loggedIn` flag is always true). */
  datatype Session = Session(email: string, timestamp: int)

  /** The three local-storage entries the page reads and writes; an absent entry is `None`. */
  datatype Storage = Storage(attempts: Option<Attempts>, lockout: Option<Lockout>, session: Option<Session>)

  /** What `window.getAuthCredentials()` supplies. */
  datatype Credentials = Credentials(allowedEmails: seq<string>, password: string)

  /** The storage of a browser that has never used the page. */
  const Empty := Storage(None, None, None)

  /** The test `handleLogin` applies first: a lockout entry that is set and has not run out. */
  predicate LockedAt(st: Storage, now: int) {
    st.lockout.Some? && st.lockout.value.isLocked && st.lockout.value.lockoutEnd > now
  }

  /** A lockout entry that is set but has run out and has not been cleared yet. */
  predicate Stale(st: Storage, now: int) {
    st.lockout.Some? && st.lockout.value.isLocked && st.lockout.value.lockoutEnd <= now
  }

  /**
   * What the page keeps true of its storage: five or more failures are
   * never on record without a lockout entry beside them.
   */
  predicate Consistent(st: Storage) {
    st.attempts.Some? && st.attempts.value.count >= MaxAttempts ==> st.lockout.Some? && st.lockout.value.isLocked
  }

  // ---------------------------------------------------------------------------
  // The failed-attempt counter

  datatype Counted = Counted(storage: Storage, count: nat)

  /**
   * `getFailedAttempts`: the recorded count, unless the record is more than
   * an hour old, in which case it is deleted and the count is 0.
   */
  function FailedAttempts(st: Storage, now: int): (r: Counted)
    ensures r.count > 0 <==> st.attempts.Some? && now - st.attempts.value.timestamp <= AttemptWindow && st.attempts.value.count > 0
    ensures r.count > 0 ==> r.count == st.attempts.value.count
    ensures r.storage.attempts.None? <==> st.attempts.None? || now - st.attempts.value.timestamp > AttemptWindow
    ensures r.storage.attempts.Some? ==> r.storage.attempts == st.attempts
    ensures r.storage.lockout == st.lockout && r.storage.session == st.session
  {
    match st.attempts
    case None => Counted(st, 0)
    case Some(a) =>
      if now - a.timestamp > AttemptWindow then Counted(st.(attempts := None), 0)
      else Counted(st, a.count)
  }

  /**
   * `incrementFailedAttempts`: the count goes on from the record when it is
   * less than an hour old and starts again from 1 otherwise; the record is
   * stamped with the current time, and reaching five locks the account.
   */
  function Increment(st: Storage, now: int): (r: Counted)
    ensures r.count >= 1
    ensures r.storage.attempts == Some(Attempts(r.count, now))
    ensures r.count > 1 <==> st.attempts.Some? && now - st.attempts.value.timestamp < AttemptWindow && st.attempts.value.count > 0
    ensures r.count > 1 ==> r.count == st.attempts.value.count + 1
    ensures r.count >= MaxAttempts ==> r.storage.lockout == Some(Lockout(true, now + LockoutDuration, now))
    ensures r.count < MaxAttempts ==> r.storage.lockout == st.lockout
    ensures r.storage.session == st.session
  {
    var before := match st.attempts
      case Some(a) => if now - a.timestamp < AttemptWindow then a.count else 0
      case None => 0;
    var count := before + 1;
    var recorded := st.(attempts := Some(Attempts(count, now)));
    if count >= MaxAttempts then Counted(LockAccount(recorded, now), count) else Counted(recorded, count)
  }

  /** `lockAccount`: locked until fifteen minutes from now. */
  function LockAccount(st: Storage, now: int): (r: Storage)
    ensures r.lockout == Some(Lockout(true, now + LockoutDuration, now))
    ensures LockedAt(r, now) && !LockedAt(r, now + LockoutDuration)
    ensures r.attempts == st.attempts && r.session == st.session
  {
    st.(lockout := Some(Lockout(true, now + LockoutDuration, now)))
  }

  /** `clearFailedAttempts`. */
  function ClearFailedAttempts(st: Storage): (r: Storage)
    ensures r.attempts.None? && r.lockout == st.lockout && r.session == st.session
  {
    st.(attempts := None)
  }

  /** `clearLockout`: the lockout entry goes, and the failed attempts with it. */
  function ClearLockout(st: Storage): (r: Storage)
    ensures r.attempts.None? && r.lockout.None? && r.session == st.session
  {
    ClearFailedAttempts(st.(lockout := None))
  }

  /** Within the hour, the next failure counts one more than the page reports. */
  lemma IncrementCountsOneMore(st: Storage, now: int)
    requires st.attempts.None? || now - st.attempts.value.timestamp != AttemptWindow
    ensures Increment(st, now).count == FailedAttempts(st, now).count + 1
  {
  }

  /**
   * At exactly one hour the two readings of the record disagree: the page
   * still reports the old count (`> 3600000` is false) while the next
   * failure starts again from 1 (`< 3600000` is false as well).
   */
  lemma WindowEdge(st: Storage, now: int)
    requires st.attempts.Some? && st.attempts.value.count > 0
    requires now - st.attempts.value.timestamp == AttemptWindow
    ensures FailedAttempts(st, now).count == st.attempts.value.count
    ensures Increment(st, now).count == 1
  {
  }

  // ---------------------------------------------------------------------------
  // The notice under the form

  /** The text `checkLockoutStatus` puts under the form. */
  datatype Notice =
    | LockedFor(minutes: int, seconds: int)  // "Try again in m:ss"
    | AttemptsWarning(failed: nat, remaining: int)
    | NoNotice

  datatype Shown = Shown(storage: Storage, notice: Notice)

  /**
   * `checkLockoutStatus`: a live lockout shows the time left in whole
   * minutes and seconds; a lockout that has run out is cleared and the
   * check starts again; without a lockout, recorded failures show a
   * warning with the attempts left.
   */
  function CheckLockoutStatus(st: Storage, now: int): (r: Shown)
    ensures r.notice.LockedFor? <==> LockedAt(st, now)
    ensures r.notice.LockedFor? ==> r.storage == st
    ensures r.notice.LockedFor? ==>
      var left := st.lockout.value.lockoutEnd - now;
      0 <= r.notice.seconds < 60 && 0 <= r.notice.minutes
      && r.notice.minutes * 60000 + r.notice.seconds * 1000 <= left < r.notice.minutes * 60000 + r.notice.seconds * 1000 + 1000
    ensures r.notice.AttemptsWarning? ==> r.notice.failed >= 1 && r.notice.failed + r.notice.remaining == MaxAttempts
    ensures !(st.lockout.Some? && st.lockout.value.isLocked) ==>
      (r.notice.AttemptsWarning? <==> FailedAttempts(st, now).count > 0)
      && (r.notice.AttemptsWarning? ==> r.notice.failed == FailedAttempts(st, now).count)
      && r.storage == FailedAttempts(st, now).storage
    ensures r.storage.session == st.session
    decreases if st.lockout.Some? then 1 else 0
  {
    if st.lockout.Some? && st.lockout.value.isLocked then
      var left := st.lockout.value.lockoutEnd - now;
      if left > 0 then Shown(st, LockedFor(left / 60000, (left % 60000) / 1000))
      else CheckLockoutStatus(ClearLockout(st), now)
    else
      var c := FailedAttempts(st, now);
      if c.count > 0 then Shown(c.storage, AttemptsWarning(c.count, MaxAttempts - c.count))
      else Shown(c.storage, NoNotice)
  }

  /** A lockout that has run out leaves nothing behind: both entries go and no notice is shown. */
  lemma {:induction false} ExpiredLockoutClears(st: Storage, now: int)
    ensures Stale(st, now) ==> CheckLockoutStatus(st, now) == Shown(ClearLockout(st), NoNotice)
  {
    if Stale(st, now) {
      var cleared := ClearLockout(st);
      assert CheckLockoutStatus(st, now) == CheckLockoutStatus(cleared, now);
      assert FailedAttempts(cleared, now) == Counted(cleared, 0);
    }
  }

  /** Without a lockout, failures more than an hour old are forgotten and nothing is shown. */
  lemma QuietAfterAnHour(st: Storage, now: int)
    requires !(st.lockout.Some? && st.lockout.value.isLocked)
    requires st.attempts.Some? && now - st.attempts.value.timestamp > AttemptWindow
    ensures CheckLockoutStatus(st, now) == Shown(st.(attempts := None), NoNotice)
  {
  }

  /** In a consistent storage a warning always leaves between one and four attempts. */
  lemma WarningLeavesAttempts(st: Storage, now: int)
    requires Consistent(st)
    requires CheckLockoutStatus(st, now).notice.AttemptsWarning?
    ensures 1 <= CheckLockoutStatus(st, now).notice.remaining < MaxAttempts
  {
  }

  /** Showing the notice keeps the storage consistent. */
  lemma CheckKeepsConsistent(st: Storage, now: int)
    requires Consistent(st)
    ensures Consistent(CheckLockoutStatus(st, now).storage)
  {
  }

  // ---------------------------------------------------------------------------
  // Signing in

  /** `allowed.map(e => e.toLowerCase()).includes(typed)`, one address at a time. */
  predicate Includes(allowed: seq<string>, typed: string) {
    |allowed| > 0 && (Text.ToLower(allowed[0]) == typed || Includes(allowed[1..], typed))
  }

  /**
   * `validateCredentials`: the address, lower-cased and trimmed, is one of
   * the allowed addresses lower-cased, and the password is the configured
   * one exactly.
   */
  predicate ValidCredentials(c: Credentials, email: string, password: string) {
    Includes(c.allowedEmails, Text.Trim(Text.ToLower(email))) && password == c.password
  }

  /** The list holds the typed address exactly when some entry of it, lower-cased, equals it. */
  lemma {:induction false} IncludesIff(allowed: seq<string>, typed: string)
    ensures Includes(allowed, typed) <==> exists i :: 0 <= i < |allowed| && Text.ToLower(allowed[i]) == typed
  {
    if |allowed| > 0 {
      IncludesIff(allowed[1..], typed);
      if exists i :: 0 <= i < |allowed| && Text.ToLower(allowed[i]) == typed {
        var i :| 0 <= i < |allowed| && Text.ToLower(allowed[i]) == typed;
        if i > 0 {
          assert Text.ToLower(allowed[1..][i - 1]) == typed;
        }
      }
      if exists i :: 0 <= i < |allowed| - 1 && Text.ToLower(allowed[1..][i]) == typed {
        var i :| 0 <= i < |allowed| - 1 && Text.ToLower(allowed[1..][i]) == typed;
        assert allowed[i + 1] == allowed[1..][i];
      }
    }
  }

  /** The credentials are valid exactly when some allowed address matches the typed one, case and padding aside. */
  lemma ValidCredentialsIff(c: Credentials, email: string, password: string)
    ensures ValidCredentials(c, email, password) <==>
      password == c.password
      && exists i :: 0 <= i < |c.allowedEmails| && Text.ToLower(c.allowedEmails[i]) == Text.Trim(Text.ToLower(email))
  {
    IncludesIff(c.allowedEmails, Text.Trim(Text.ToLower(email)));
  }

  /** Upper-case letters in the typed address make no difference. */
  lemma {:induction false} CaseDoesNotMatter(c: Credentials, email: string, password: string)
    ensures ValidCredentials(c, Text.ToLower(email), password) == ValidCredentials(c, email, password)
  {
    assert Text.ToLower(Text.ToLower(email)) == Text.ToLower(email);
  }

  /** Nor does a space typed before the address. */
  lemma {:induction false} LeadingSpaceDoesNotMatter(c: Credentials, email: string, password: string)
    ensures ValidCredentials(c, " " + email, password) == ValidCredentials(c, email, password)
  {
    var padded := Text.ToLower(" " + email);
    assert padded[1..] == Text.ToLower(email);
    assert Text.TrimStart(padded) == Text.TrimStart(padded[1..]);
  }

  /** What one press of the sign-in button ends in. */
  datatype Outcome =
    | Refused(notice: Notice)                  // locked: the credentials are not looked at
    | LoggedIn
    | Rejected(remaining: int, notice: Notice) // wrong credentials, attempts left
    | LockedOut(notice: Notice)                // wrong credentials, and now locked

  datatype Handled = Handled(storage: Storage, outcome: Outcome)

  /**
   * The failure branch of `handleLogin`: the failure is counted, the notice
   * is refreshed, and the answer says whether the account is now locked or
   * how many attempts are left. A lockout entry that had run out without
   * being cleared is cleared by the refresh, and the new count with it.
   */
  function Fail(st: Storage, now: int): (r: Handled)
    requires !LockedAt(st, now)
    ensures r.outcome.Rejected? || r.outcome.LockedOut?
    ensures r.storage.session == st.session
    ensures r.outcome.LockedOut? <==> Increment(st, now).count >= MaxAttempts
    ensures r.outcome.LockedOut? ==>
      r.storage.attempts == Some(Attempts(Increment(st, now).count, now))
      && LockedAt(r.storage, now + LockoutDuration - 1) && r.outcome.notice.LockedFor?
    ensures r.outcome.Rejected? ==> r.outcome.remaining == MaxAttempts - Increment(st, now).count && 1 <= r.outcome.remaining
    ensures r.outcome.Rejected? && !Stale(st, now) ==>
      r.storage.attempts == Some(Attempts(Increment(st, now).count, now)) && r.storage.lockout == st.lockout
    ensures r.outcome.Rejected? && !Stale(st, now) ==>
      r.outcome.notice == AttemptsWarning(Increment(st, now).count, r.outcome.remaining)
    ensures r.outcome.Rejected? && Stale(st, now) ==>
      r.storage.attempts.None? && r.storage.lockout.None? && r.outcome.notice.NoNotice?
  {
    var counted := Increment(st, now);
    ExpiredLockoutClears(counted.storage, now);
    var shown := CheckLockoutStatus(counted.storage, now);
    if counted.count >= MaxAttempts then Handled(shown.storage, LockedOut(shown.notice))
    else Handled(shown.storage, Rejected(MaxAttempts - counted.count, shown.notice))
  }

  /**
   * `handleLogin`: refused while a lockout is live; otherwise valid
   * credentials clear the counter and the lockout and start a session under
   * the lower-cased (untrimmed) address, and invalid ones count a failure.
   */
  function HandleLogin(c: Credentials, st: Storage, email: string, password: string, now: int): (r: Handled)
    ensures r.outcome.Refused? <==> LockedAt(st, now)
    ensures r.outcome.Refused? ==> r.storage == st && r.outcome.notice.LockedFor?
    ensures r.outcome.LoggedIn? <==> !LockedAt(st, now) && ValidCredentials(c, email, password)
    ensures r.outcome.LoggedIn? ==>
      r.storage == Storage(None, None, Some(Session(Text.ToLower(email), now)))
    ensures !LockedAt(st, now) && !ValidCredentials(c, email, password) ==> r == Fail(st, now)
  {
    if LockedAt(st, now) then
      var shown := CheckLockoutStatus(st, now);
      Handled(shown.storage, Refused(shown.notice))
    else if ValidCredentials(c, email, password) then
      var cleared := ClearLockout(ClearFailedAttempts(st));
      Handled(cleared.(session := Some(Session(Text.ToLower(email), now))), LoggedIn)
    else
      Fail(st, now)
  }

  /** While locked, what is typed makes no difference to the answer or to the storage. */
  lemma RefusedWhateverTyped(c: Credentials, st: Storage, e1: string, p1: string, e2: string, p2: string, now: int)
    requires LockedAt(st, now)
    ensures HandleLogin(c, st, e1, p1, now) == HandleLogin(c, st, e2, p2, now)
  {
  }

  /** Every sign-in attempt keeps the storage consistent. */
  lemma LoginKeepsConsistent(c: Credentials, st: Storage, email: string, password: string, now: int)
    requires Consistent(st)
    ensures Consistent(HandleLogin(c, st, email, password, now).storage)
  {
    if !LockedAt(st, now) && !ValidCredentials(c, email, password) {
      CheckKeepsConsistent(Increment(st, now).storage, now);
      assert Consistent(Fail(st, now).storage);
    }
  }

  // ---------------------------------------------------------------------------
  // A run of attempts

  /** One press of the button: what was typed and when. */
  datatype Attempt = Attempt(email: string, password: string, at: int)

  datatype Ran = Ran(storage: Storage, outcomes: seq<Outcome>)

  /** The attempts handled one after another from the storage `st`. */
  function Run(c: Credentials, st: Storage, xs: seq<Attempt>): (r: Ran)
    ensures |r.outcomes| == |xs|
  {
    if |xs| == 0 then Ran(st, [])
    else
      var before := Run(c, st, xs[..|xs| - 1]);
      var last := xs[|xs| - 1];
      var h := HandleLogin(c, before.storage, last.email, last.password, last.at);
      Ran(h.storage, before.outcomes + [h.outcome])
  }

  /** The last attempt of a run is handled in the storage the others leave, and its outcome comes last. */
  lemma RunLast(c: Credentials, st: Storage, xs: seq<Attempt>)
    requires |xs| > 0
    ensures var before := Run(c, st, xs[..|xs| - 1]); var last := xs[|xs| - 1];
      var h := HandleLogin(c, before.storage, last.email, last.password, last.at);
      Run(c, st, xs).storage == h.storage && Run(c, st, xs).outcomes[|xs| - 1] == h.outcome
  {
  }

  /** Every attempt uses wrong credentials, and each follows the one before within the hour. */
  predicate FailingStreak(c: Credentials, xs: seq<Attempt>) {
    (forall i :: 0 <= i < |xs| ==> !ValidCredentials(c, xs[i].email, xs[i].password))
    && forall i :: 0 < i < |xs| ==> xs[i].at - xs[i - 1].at < AttemptWindow
  }

  /**
   * The storage after `k` failures in a row, the last at time `t`: the
   * count, and from the fifth on the lockout that failure set.
   */
  function Streak(k: nat, t: int): Storage {
    if k == 0 then Empty
    else if k < MaxAttempts then Storage(Some(Attempts(k, t)), None, None)
    else Storage(Some(Attempts(k, t)), Some(Lockout(true, t + LockoutDuration, t)), None)
  }

  /** The answer to the `k`-th failure in a row: attempts left, or locked for 15:00. */
  function StreakOutcome(k: nat): Outcome {
    if k < MaxAttempts then Rejected(MaxAttempts - k, AttemptsWarning(k, MaxAttempts - k))
    else LockedOut(LockedFor(15, 0))
  }

  /** One more failure within the hour of the last counts one more, and the fifth locks. */
  lemma FailureStep(c: Credentials, k: nat, t: int, x: Attempt)
    requires k < MaxAttempts && !ValidCredentials(c, x.email, x.password)
    requires k == 0 || x.at - t < AttemptWindow
    ensures HandleLogin(c, Streak(k, t), x.email, x.password, x.at) == Handled(Streak(k + 1, x.at), StreakOutcome(k + 1))
  {
    var st := Streak(k, t);
    assert st.lockout.None? && st.session.None?;
    assert Increment(st, x.at).count == k + 1;
    var h := HandleLogin(c, st, x.email, x.password, x.at);
    assert h == Fail(st, x.at);
    if k + 1 < MaxAttempts {
      assert h.outcome.Rejected?;
      assert h.storage.attempts == Some(Attempts(k + 1, x.at));
    } else {
      assert h.outcome.LockedOut?;
    }
  }

  /** A streak without its last attempt is a streak, and its last attempt fails within the hour of the one before. */
  lemma StreakPrefix(c: Credentials, xs: seq<Attempt>)
    requires |xs| > 1 && FailingStreak(c, xs)
    ensures FailingStreak(c, xs[..|xs| - 1])
    ensures !ValidCredentials(c, xs[|xs| - 1].email, xs[|xs| - 1].password)
    ensures xs[..|xs| - 1][|xs| - 2] == xs[|xs| - 2] && xs[|xs| - 1].at - xs[|xs| - 2].at < AttemptWindow
  {
    var prefix := xs[..|xs| - 1];
    forall i | 0 <= i < |prefix| ensures !ValidCredentials(c, prefix[i].email, prefix[i].password) {
      assert prefix[i] == xs[i];
    }
    forall i | 0 < i < |prefix| ensures prefix[i].at - prefix[i - 1].at < AttemptWindow {
      assert prefix[i] == xs[i] && prefix[i - 1] == xs[i - 1];
    }
  }

  /**
   * From a fresh browser, up to five failures in a row, each within an hour
   * of the one before, are counted one by one: the first four leave the
   * account open with 4, 3, 2, 1 attempts left and the fifth locks it.
   */
  lemma {:induction false} FailuresCount(c: Credentials, xs: seq<Attempt>)
    requires 0 < |xs| <= MaxAttempts && FailingStreak(c, xs)
    ensures Run(c, Empty, xs).storage == Streak(|xs|, xs[|xs| - 1].at)
    ensures Run(c, Empty, xs).outcomes[|xs| - 1] == StreakOutcome(|xs|)
  {
    var n := |xs|;
    var t := if n == 1 then 0 else xs[n - 2].at;
    if n > 1 {
      StreakPrefix(c, xs);
      FailuresCount(c, xs[..n - 1]);
    }
    assert Run(c, Empty, xs[..n - 1]).storage == Streak(n - 1, t);
    FailureStep(c, n - 1, t, xs[n - 1]);
    RunLast(c, Empty, xs);
  }

  /** The fifth failure in a row locks the account for fifteen minutes from that failure, whatever is typed. */
  lemma FifthFailureLocks(c: Credentials, xs: seq<Attempt>, later: Attempt)
    requires |xs| == MaxAttempts && FailingStreak(c, xs)
    requires xs[|xs| - 1].at <= later.at < xs[|xs| - 1].at + LockoutDuration
    ensures Run(c, Empty, xs).outcomes[|xs| - 1].LockedOut?
    ensures HandleLogin(c, Run(c, Empty, xs).storage, later.email, later.password, later.at).outcome.Refused?
  {
    FailuresCount(c, xs);
  }
}
