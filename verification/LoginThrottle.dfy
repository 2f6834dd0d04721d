/**
 The failed-login throttle: a pruned list per user, and the full history of attempts it stands for.
 */
module LoginThrottle {

  const MAX_ATTEMPTS := 5
  const LOCKOUT_SECONDS := 60.0

  /** How an attempt ended. */
  datatype Event = Failure(user: string, at: real) | Success(user: string) | Locked(user: string)

  /** One login request: the clock when the throttle is consulted, the clock when a failure would be recorded, and
      whether the credentials, account and source address are good. */
  datatype Attempt = Attempt(user: string, checked: real, recorded: real, valid: bool)

  /* ---------- What the full history says ---------- */

  /** What one more event makes of a user's failures since last succeeding. */
  function Noted(failures: seq<real>, e: Event, user: string): seq<real> {
    if e.user != user || e.Locked? then failures
    else if e.Success? then []
    else failures + [e.at]
  }

  /** When the user failed since last succeeding, oldest first. */
  function FailuresSince(log: seq<Event>, user: string): seq<real> {
    if log == [] then [] else Noted(FailuresSince(log[..|log| - 1], user), log[|log| - 1], user)
  }

  /** The times less than a lockout period old. */
  function Recent(times: seq<real>, now: real): (r: seq<real>)
    ensures |r| <= |times|
  {
    if times == [] then []
    else
      var n := |times| - 1;
      if now - times[n] < LOCKOUT_SECONDS then Recent(times[..n], now) + [times[n]] else Recent(times[..n], now)
  }

  predicate LockedOut(log: seq<Event>, user: string, now: real) {
    |Recent(FailuresSince(log, user), now)| >= MAX_ATTEMPTS
  }

  /** The verdict on an attempt, by the full history. */
  function Judged(log: seq<Event>, a: Attempt): Event {
    if LockedOut(log, a.user, a.checked) then Locked(a.user)
    else if a.valid then Success(a.user)
    else Failure(a.user, a.recorded)
  }

  function Run(attempts: seq<Attempt>): seq<Event> {
    if attempts == [] then []
    else
      var n := |attempts| - 1;
      Run(attempts[..n]) + [Judged(Run(attempts[..n]), attempts[n])]
  }

  /** The clock never goes back. */
  ghost predicate Timely(attempts: seq<Attempt>) {
    && (forall i :: 0 <= i < |attempts| ==> attempts[i].checked <= attempts[i].recorded)
    && (forall i, j :: 0 <= i < j < |attempts| ==> attempts[i].recorded <= attempts[j].checked)
  }

  /* ---------- Times in order ---------- */

  ghost predicate InOrder(times: seq<real>) {
    forall i, j :: 0 <= i < j < |times| ==> times[i] <= times[j]
  }

  /** Of times in order, the recent ones are the latest. */
  lemma {:induction false} RecentAreLatest(times: seq<real>, now: real, i: nat)
    requires InOrder(times) && i < |times|
    ensures now - times[i] < LOCKOUT_SECONDS <==> |times| - |Recent(times, now)| <= i
  {
    var n := |times| - 1;
    var earlier := Recent(times[..n], now);
    if i < n {
      RecentAreLatest(times[..n], now, i);
    }
    if now - times[n] >= LOCKOUT_SECONDS && |earlier| > 0 {
      assert times[n - |earlier|] <= times[n];
      RecentAreLatest(times[..n], now, n - |earlier|);
    }
  }

  /** Pruning early does not change what is recent later. */
  lemma {:induction false} PruneEarly(times: seq<real>, earlier: real, now: real)
    requires earlier <= now
    ensures Recent(Recent(times, earlier), now) == Recent(times, now)
  {
    if times != [] {
      var n := |times| - 1;
      PruneEarly(times[..n], earlier, now);
      if earlier - times[n] < LOCKOUT_SECONDS {
        RecentMore(Recent(times[..n], earlier), times[n], now);
      }
    }
  }

  lemma RecentMore(times: seq<real>, t: real, now: real)
    ensures Recent(times + [t], now)
      == if now - t < LOCKOUT_SECONDS then Recent(times, now) + [t] else Recent(times, now)
  {
  }

  lemma FailuresMore(log: seq<Event>, e: Event, user: string)
    ensures FailuresSince(log + [e], user) == Noted(FailuresSince(log, user), e, user)
  {
  }

  /* ---------- What every run keeps ---------- */

  ghost predicate Spaced(times: seq<real>) {
    forall i :: 0 <= i < |times| - MAX_ATTEMPTS ==> times[i + MAX_ATTEMPTS] - times[i] >= LOCKOUT_SECONDS
  }

  ghost predicate UpTo(times: seq<real>, clock: real) {
    forall i :: 0 <= i < |times| ==> times[i] <= clock
  }

  lemma OneMoreFailure(times: seq<real>, checked: real, recorded: real)
    requires InOrder(times) && Spaced(times) && UpTo(times, checked) && checked <= recorded
    requires |Recent(times, checked)| < MAX_ATTEMPTS
    ensures InOrder(times + [recorded]) && Spaced(times + [recorded]) && UpTo(times + [recorded], recorded)
  {
    forall i | 0 <= i && i + MAX_ATTEMPTS <= |times|
      ensures checked - times[i] >= LOCKOUT_SECONDS
    {
      RecentAreLatest(times, checked, i);
    }
  }

  /** In every run: failures since a success are in order, and any six in a row span at least the lockout period. */
  lemma {:induction false} SixFailuresSpan(attempts: seq<Attempt>, user: string)
    requires Timely(attempts)
    ensures var times := FailuresSince(Run(attempts), user);
            && InOrder(times) && Spaced(times)
            && (attempts != [] ==> UpTo(times, attempts[|attempts| - 1].recorded)) && (attempts == [] ==> times == [])
  {
    if attempts != [] {
      var n := |attempts| - 1;
      var log, a := Run(attempts[..n]), attempts[n];
      SixFailuresSpan(attempts[..n], user);
      FailuresMore(log, Judged(log, a), user);
      var times := FailuresSince(log, user);
      assert UpTo(times, a.checked) by {
        if n > 0 {
          assert attempts[n - 1].recorded <= a.checked && attempts[..n][n - 1] == attempts[n - 1];
        }
      }
      if Judged(log, a).Failure? && a.user == user {
        OneMoreFailure(times, a.checked, a.recorded);
      }
    }
  }

  lemma FailuresInOrder(attempts: seq<Attempt>, user: string)
    requires Timely(attempts)
    ensures InOrder(FailuresSince(Run(attempts), user))
  {
    SixFailuresSpan(attempts, user);
  }

  lemma FifthLastDecides(times: seq<real>, now: real)
    requires InOrder(times)
    ensures |Recent(times, now)| >= MAX_ATTEMPTS <==>
            |times| >= MAX_ATTEMPTS && now < times[|times| - MAX_ATTEMPTS] + LOCKOUT_SECONDS
  {
    if |times| >= MAX_ATTEMPTS {
      RecentAreLatest(times, now, |times| - MAX_ATTEMPTS);
    }
  }

  /** When exactly a user is locked out: once there are five failures since a success, until the lockout period
      after the fifth last of them has passed. */
  lemma LockoutExact(attempts: seq<Attempt>, user: string, now: real)
    requires Timely(attempts)
    ensures var times := FailuresSince(Run(attempts), user);
            LockedOut(Run(attempts), user, now) <==> |times| >= 5 && now < times[|times| - 5] + 60.0
  {
    FailuresInOrder(attempts, user);
    FifthLastDecides(FailuresSince(Run(attempts), user), now);
  }

  /** How every attempt of every run ends: it is turned away exactly while its user is locked out, and otherwise
      succeeds exactly if the credentials, account and address are good. */
  lemma AttemptExact(attempts: seq<Attempt>, a: Attempt)
    requires Timely(attempts)
    ensures var times := FailuresSince(Run(attempts), a.user);
            var locked := |times| >= 5 && a.checked < times[|times| - 5] + 60.0;
            Run(attempts + [a]) == Run(attempts) + [if locked then Locked(a.user)
                                                    else if a.valid then Success(a.user)
                                                    else Failure(a.user, a.recorded)]
  {
    RunMore(attempts, a);
    LockoutExact(attempts, a.user, a.checked);
  }

  lemma RunMore(attempts: seq<Attempt>, a: Attempt)
    ensures Run(attempts + [a]) == Run(attempts) + [Judged(Run(attempts), a)]
  {
    var all := attempts + [a];
    assert all[..|attempts|] == attempts && all[|attempts|] == a;
  }

  /** The failures that count are those after the latest success, in order. */
  lemma {:induction false} FailuresExact(before: seq<Event>, after: seq<Event>, user: string)
    requires Success(user) !in after && (before == [] || before[|before| - 1] == Success(user))
    ensures FailuresSince(before + after, user) == FailureTimes(after, user)
  {
    if after == [] {
      assert before + after == before;
      if before != [] {
        assert FailuresSince(before, user) == [];
      }
    } else {
      var n := |after| - 1;
      FailuresExact(before, after[..n], user);
      assert before + after == (before + after[..n]) + [after[n]];
      FailuresMore(before + after[..n], after[n], user);
    }
  }

  /** The times of a user's failures, wherever they are. */
  function FailureTimes(log: seq<Event>, user: string): seq<real> {
    if log == [] then []
    else
      var n := |log| - 1;
      FailureTimes(log[..n], user)
      + match log[n]
        case Failure(u, at) => if u == user then [at] else []
        case _ => []
  }

  /** An attempt made while locked out changes no later verdict on anyone. */
  lemma LockedAttemptsDoNotExtend(log: seq<Event>, a: Attempt, user: string, now: real)
    requires LockedOut(log, a.user, a.checked)
    ensures LockedOut(log + [Judged(log, a)], user, now) <==> LockedOut(log, user, now)
  {
  }

  /** Nobody else's attempt does either. */
  lemma OthersDoNotCount(log: seq<Event>, a: Attempt, user: string, now: real)
    requires a.user != user
    ensures LockedOut(log + [Judged(log, a)], user, now) <==> LockedOut(log, user, now)
  {
  }

  /* ---------- The pruned lists ---------- */

  function Held(lists: map<string, seq<real>>, user: string): seq<real> {
    if user in lists then lists[user] else []
  }

  /** The lists agree with the history about everything recent, and stay short. */
  ghost predicate Refines(lists: map<string, seq<real>>, log: seq<Event>, clock: real) {
    forall user :: && Recent(Held(lists, user), clock) == Recent(FailuresSince(log, user), clock)
                   && |Held(lists, user)| <= MAX_ATTEMPTS
  }

  lemma StillRefines(lists: map<string, seq<real>>, log: seq<Event>, clock: real, now: real, user: string)
    requires Refines(lists, log, clock) && clock <= now
    ensures Recent(Held(lists, user), now) == Recent(FailuresSince(log, user), now)
  {
    PruneEarly(Held(lists, user), clock, now);
    PruneEarly(FailuresSince(log, user), clock, now);
    assert Recent(Held(lists, user), clock) == Recent(FailuresSince(log, user), clock);
  }

  /** What a handled attempt leaves in the lists. */
  function After(lists: map<string, seq<real>>, a: Attempt, e: Event): map<string, seq<real>> {
    var recent := Recent(Held(lists, a.user), a.checked);
    match e
    case Locked(_) => lists[a.user := recent]
    case Failure(_, at) => lists[a.user := recent + [at]]
    case Success(_) => lists - {a.user}
  }

  lemma AfterRefines(lists: map<string, seq<real>>, log: seq<Event>, clock: real, a: Attempt)
    requires Refines(lists, log, clock) && clock <= a.checked <= a.recorded
    ensures Refines(After(lists, a, Judged(log, a)), log + [Judged(log, a)], a.recorded)
  {
    var e := Judged(log, a);
    var now := After(lists, a, e);
    forall user
      ensures Recent(Held(now, user), a.recorded) == Recent(FailuresSince(log + [e], user), a.recorded)
      ensures |Held(now, user)| <= MAX_ATTEMPTS
    {
      FailuresMore(log, e, user);
      StillRefines(lists, log, clock, a.checked, user);
      StillRefines(lists, log, clock, a.recorded, user);
      assert |Held(lists, user)| <= MAX_ATTEMPTS;
      if user == a.user {
        var held, times := Held(lists, user), FailuresSince(log, user);
        PruneEarly(held, a.checked, a.recorded);
        if e.Failure? {
          RecentMore(Recent(held, a.checked), a.recorded, a.recorded);
          RecentMore(times, a.recorded, a.recorded);
        }
      }
    }
  }

  class Throttle {
    var lists: map<string, seq<real>>
    ghost var log: seq<Event>
    ghost var clock: real

    constructor (start: real)
      ensures Valid() && log == [] && clock == start
    {
      lists, log, clock := map[], [], start;
    }

    ghost predicate Valid()
      reads this
    {
      Refines(lists, log, clock)
    }

    /** `_is_locked_out` */
    method IsLockedOut(user: string, now: real) returns (locked: bool)
      modifies this`lists
      ensures lists == old(lists)[user := Recent(Held(old(lists), user), now)]
      ensures locked <==> |Recent(Held(old(lists), user), now)| >= MAX_ATTEMPTS
    {
      var attempts := Held(lists, user);
      var recent := [];
      for i := 0 to |attempts|
        invariant recent == Recent(attempts[..i], now)
      {
        assert attempts[..i + 1][..i] == attempts[..i];
        if now - attempts[i] < LOCKOUT_SECONDS {
          recent := recent + [attempts[i]];
        }
      }
      assert attempts[..|attempts|] == attempts;
      lists := lists[user := recent];
      locked := |recent| >= MAX_ATTEMPTS;
    }

    /** `_record_failure` */
    method RecordFailure(user: string, now: real)
      modifies this`lists
      ensures lists == old(lists)[user := Held(old(lists), user) + [now]]
    {
      lists := lists[user := Held(lists, user) + [now]];
    }

    /** `_clear_failures` */
    method ClearFailures(user: string)
      modifies this`lists
      ensures lists == old(lists) - {user}
    {
      lists := lists - {user};
    }

    /** `login`, as far as the throttle goes */
    method Login(a: Attempt) returns (e: Event)
      requires Valid() && clock <= a.checked <= a.recorded
      modifies this
      ensures Valid() && clock == a.recorded
      ensures e == Judged(old(log), a) && log == old(log) + [e]
    {
      ghost var was, recent := lists, Recent(Held(lists, a.user), a.checked);
      StillRefines(lists, log, clock, a.checked, a.user);
      var locked := IsLockedOut(a.user, a.checked);
      if locked {
        e := Locked(a.user);
      } else if !a.valid {
        RecordFailure(a.user, a.recorded);
        e := Failure(a.user, a.recorded);
        assert lists == was[a.user := recent + [a.recorded]];
      } else {
        ClearFailures(a.user);
        e := Success(a.user);
        assert lists == was - {a.user};
      }
      AfterRefines(was, log, clock, a);
      log, clock := log + [e], a.recorded;
    }
  }
}
