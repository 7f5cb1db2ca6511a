/**
 * What the rotation of the session is for: an accepted session has a timer that renews it in time,
 * and a request that waited for a rotation bears the token that came of it.
 */
module SessionLiveness {
  import opened JsText
  import opened SessionRotation

  // ----- timers are set

  /** Timers are numbered in the order in which they are set, and each has a due time. */
  ghost predicate Numbered(w: World) {
    && (forall timer | timer in w.timers :: timer < w.nextTimer && timer in w.due)
    && (forall timer | timer in w.retries :: timer < w.nextTimer)
  }

  /** The field knows a live timer that is due at a given time. */
  ghost predicate TimerIsDue(w: World, retry: bool, due: nat) {
    && w.f.timer.Some?
    && var timer := w.f.timer.value;
    && timer in w.timers && (timer in w.retries <==> retry)
    && timer in w.due && w.due[timer] == due
  }

  /** The timer renews the session 120 s before it expires, or as near to that as the bounds let it. */
  ghost predicate RenewalIsDue(w: World, now: nat) {
    exists due :: TimerIsDue(w, false, due) && IsRenewalTime(w.f.expiresAt, now, due)
  }

  predicate IsRenewalTime(expiresAt: nat, now: nat, due: nat) {
    && now + 1_000 <= due <= now + 2_147_000_000
    && (due == expiresAt - 120_000
        || (due == now + 1_000 && expiresAt < now + 121_000)
        || (due == now + 2_147_000_000 && expiresAt > now + 2_147_120_000))
  }

  lemma ScheduledIsDue(w: World, now: nat)
    requires Numbered(w)
    ensures Numbered(Scheduled(w, now)) && RenewalIsDue(Scheduled(w, now), now)
  {
    var due := now + RotationDelay(w.f.expiresAt, now);
    assert TimerIsDue(Scheduled(w, now), false, due);
    assert IsRenewalTime(w.f.expiresAt, now, due);
  }

  lemma {:induction false} ReleasedAllNumbered(w: World, waiters: seq<Waiter>, ok: bool, call: nat, now: nat)
    requires Numbered(w)
    ensures Numbered(ReleasedAll(w, waiters, ok, call, now))
    decreases |waiters|
  {
    if waiters != [] {
      ReleasedAllNumbered(Released(w, waiters[0], ok, Some(call), now), waiters[1..], ok, call, now);
    }
  }

  lemma {:induction false} SuccessKeepsDue(w: World, waiters: seq<Waiter>, call: nat, now: nat)
    ensures var w' := ReleasedAll(w, waiters, true, call, now);
      && w'.f == w.f && w'.timers == w.timers && w'.retries == w.retries && w'.due == w.due
    decreases |waiters|
  {
    if waiters != [] {
      SuccessKeepsDue(Released(w, waiters[0], true, Some(call), now), waiters[1..], call, now);
    }
  }

  lemma StepKeepsNumbered(w: World, a: Action)
    requires Numbered(w)
    ensures Numbered(Step(w, a))
  {
    match a
    case Fail(now) =>
      if w.f.rotation.Some? {
        SettleNumbered(w, false, now);
      }
    case Persisted(now) =>
      if w.phase.Persisting? && w.f.rotation.Some? {
        ScheduledIsDue(w, now);
        hide Numbered, Scheduled;
        SettleNumbered(Scheduled(w, now), true, now);
      }
    case _ =>
  }

  lemma SettleNumbered(w: World, ok: bool, now: nat)
    requires Numbered(w) && w.f.rotation.Some?
    ensures Numbered(Settle(w, ok, now))
  {
    hide ReleasedAll;
    var call := w.f.rotation.value;
    var w1 := Noted(w, Settled(call, ok)).(f := w.f.(rotation := None), phase := Idle, waiters := []);
    assert Numbered(w1);
    ReleasedAllNumbered(w1, w.waiters, ok, call, now);
  }

  lemma {:induction false} TraceKeepsNumbered(w: World, actions: seq<Action>)
    requires Numbered(w)
    ensures Numbered(Trace(w, actions))
    decreases |actions|
  {
    hide Numbered, Step;
    if actions != [] {
      StepKeepsNumbered(w, actions[0]);
      TraceKeepsNumbered(Step(w, actions[0]), actions[1..]);
    }
  }

  /** The action accepts a session for good: it is armed, resumed while fresh, or its rotation is complete. */
  predicate AcceptsForGood(w: World, a: Action) {
    match a
    case Arm(_) => true
    case Resume(_, expiresAt, now) => expiresAt > now + 120_000
    case Persisted(_) => w.phase.Persisting?
    case _ => false
  }

  /**
   * In every interleaving, an accepted session has a live timer that is known, can be cancelled, and
   * is due 120 seconds before the session expires, as far as the bounds of a timer let it.
   */
  lemma AcceptedSessionIsRenewed(actions: seq<Action>, a: Action)
    requires AcceptsForGood(Trace(Boot, actions), a)
    ensures RenewalIsDue(Step(Trace(Boot, actions), a), a.now)
  {
    hide Trace;
    var w := Trace(Boot, actions);
    BootHoldsInv();
    TraceKeepsInv(Boot, actions);
    TraceKeepsNumbered(Boot, actions);
    match a
    case Arm(now) => ScheduledIsDue(w, now);
    case Resume(token, expiresAt, now) => ScheduledIsDue(AdoptedWorld(w, token, expiresAt), now);
    case Persisted(now) =>
      assert w.f.rotation.Some? by {
        hide LawfulLog, Outstanding;
      }
      hide Inv;
      ScheduledIsDue(w, now);
      SettledIsDue(Scheduled(w, now), now);
  }

  lemma SettledIsDue(w: World, now: nat)
    requires w.f.rotation.Some? && RenewalIsDue(w, now)
    ensures RenewalIsDue(Settle(w, true, now), now)
  {
    hide ReleasedAll, IsRenewalTime;
    var call := w.f.rotation.value;
    var w1 := Noted(w, Settled(call, true)).(f := w.f.(rotation := None), phase := Idle, waiters := []);
    SuccessKeepsDue(w1, w.waiters, call, now);
    var due :| TimerIsDue(w, false, due) && IsRenewalTime(w.f.expiresAt, now, due);
    assert TimerIsDue(Settle(w, true, now), false, due);
  }

  // ----- timers that fire

  /** A live timer that fires while there is a session has a rotation under way, its own or an earlier one. */
  lemma TimerRotates(w: World, timer: nat, now: nat)
    requires timer in w.timers && w.f.token.Some?
    ensures var w' := Step(w, Fire(timer, now));
      && w'.f.rotation.Some?
      && (w.f.rotation.None? ==> w'.log == w.log + [Rotate(w.nextCall)] && w'.f.rotation == Some(w.nextCall))
      && timer !in w'.timers && w'.f.timer.None?
      && w'.waiters != [] && w'.waiters[|w'.waiters| - 1] == (if timer in w.retries then RetryTimer else FirstTimer)
  {
  }

  lemma {:induction false} FailureRetries(w: World, waiters: seq<Waiter>, call: nat, now: nat)
    requires Numbered(w) && Resuming !in waiters && w.f.expiresAt > now + 15_000
    requires FirstTimer in waiters || TimerIsDue(w, true, now + 15_000)
    ensures TimerIsDue(ReleasedAll(w, waiters, false, call, now), true, now + 15_000)
    decreases |waiters|
  {
    if waiters != [] {
      var w1 := Released(w, waiters[0], false, Some(call), now);
      if waiters[0].FirstTimer? {
        assert TimerIsDue(w1, true, now + 15_000);
      } else {
        assert waiters[0] != Resuming && w1.f == w.f && w1.due == w.due && w1.timers == w.timers && w1.retries == w.retries;
      }
      FailureRetries(w1, waiters[1..], call, now);
    }
  }

  /**
   * A timer whose rotation fails is followed by one more, 15 s later, if the session lasts until then;
   * only a resumption that fails with it drops the session instead.
   */
  lemma FailedTimerIsRetried(actions: seq<Action>, now: nat)
    requires var w := Trace(Boot, actions);
      && w.f.rotation.Some? && FirstTimer in w.waiters && Resuming !in w.waiters && w.f.expiresAt > now + 15_000
    ensures TimerIsDue(Step(Trace(Boot, actions), Fail(now)), true, now + 15_000)
  {
    hide Trace, TimerIsDue, ReleasedAll;
    var w := Trace(Boot, actions);
    TraceKeepsNumbered(Boot, actions);
    var call := w.f.rotation.value;
    var w1 := Noted(w, Settled(call, false)).(f := w.f.(rotation := None), phase := Idle, waiters := []);
    assert Numbered(w1);
    FailureRetries(w1, w.waiters, call, now);
  }

  /** A resumption whose rotation fails drops the session; its timer is cancelled with it. */
  lemma {:induction false} FailedResumptionClears(w: World, waiters: seq<Waiter>, call: nat, now: nat)
    requires Resuming in waiters || (w.f.token.None? && w.f.expiresAt == 0)
    ensures var w' := ReleasedAll(w, waiters, false, call, now); w'.f.token.None? && w'.f.expiresAt == 0
    decreases |waiters|
  {
    if waiters != [] {
      FailedResumptionClears(Released(w, waiters[0], false, Some(call), now), waiters[1..], call, now);
    }
  }

  // ----- whose token a request bears

  /** The token of the session that was accepted last. */
  function LastAdopted(log: seq<Note>): Option<string> {
    if log == [] then None
    else if log[|log| - 1].Adoption? then Some(log[|log| - 1].token)
    else LastAdopted(log[..|log| - 1])
  }

  ghost predicate HasGrant(log: seq<Note>, call: nat) {
    exists token :: Granted(call, token) in log
  }

  /** When a note may be added, as far as tokens go. */
  ghost predicate Bears(log: seq<Note>, note: Note) {
    match note
    case Sent(_, bearer, ground) => bearer == LastAdopted(log) && (ground.After? ==> HasGrant(log, ground.call))
    case Granted(call, token) => LastAdopted(log) == Some(token) && !HasGrant(log, call)
    case _ => true
  }

  ghost predicate BearingLog(log: seq<Note>) {
    forall k | 0 <= k < |log| :: Bears(log[..k], log[k])
  }

  ghost predicate Bearing(w: World) {
    && BearingLog(w.log)
    && (w.f.token.Some? ==> LastAdopted(w.log) == w.f.token)
    && (w.f.rotation.Some? && w.phase.Persisting? ==> HasGrant(w.log, w.f.rotation.value))
    && (w.f.rotation.Some? && w.phase.OnTheWire? ==> !HasGrant(w.log, w.f.rotation.value))
    && (forall note | note in w.log && note.Granted? :: note.call < w.nextCall)
  }

  lemma BearingAppend(log: seq<Note>, note: Note)
    requires BearingLog(log) && Bears(log, note)
    ensures BearingLog(log + [note])
    ensures LastAdopted(log + [note]) == if note.Adoption? then Some(note.token) else LastAdopted(log)
  {
    var t := log + [note];
    assert t[..|log|] == log;
    hide Bears;
    forall k | 0 <= k < |t| ensures Bears(t[..k], t[k]) {
      assert t[..k] == log[..k];
      assert log[..|log|] == log;
    }
  }

  lemma GrantsAppend(log: seq<Note>, note: Note)
    ensures forall call :: HasGrant(log + [note], call) <==> HasGrant(log, call) || (note.Granted? && note.call == call)
  {
    forall call
      ensures HasGrant(log + [note], call) <==> HasGrant(log, call) || (note.Granted? && note.call == call)
    {
      if HasGrant(log, call) {
        var token :| Granted(call, token) in log;
        assert Granted(call, token) in log + [note];
      }
      if note.Granted? && note.call == call {
        assert Granted(call, note.token) in log + [note];
      }
    }
  }

  /** A note about anything but a grant and an adoption. */
  lemma NotedBears(w: World, note: Note)
    requires Bearing(w) && Bears(w.log, note) && !note.Granted? && !note.Adoption?
    ensures Bearing(Noted(w, note))
  {
    hide Bears, BearingLog, HasGrant, LastAdopted;
    BearingAppend(w.log, note);
    GrantsAppend(w.log, note);
  }

  lemma AdoptedBears(w: World, token: string, expiresAt: nat)
    requires Bearing(w)
    ensures Bearing(AdoptedWorld(w, token, expiresAt))
  {
    var note := Adoption(token, expiresAt);
    assert Bears(w.log, note);
    hide Bears, BearingLog, HasGrant, LastAdopted;
    BearingAppend(w.log, note);
    GrantsAppend(w.log, note);
  }

  lemma GrantBears(w: World, token: string)
    requires Bearing(w) && w.phase.OnTheWire? && w.f.rotation.Some? && LastAdopted(w.log) == Some(token)
    requires w.f.rotation.value < w.nextCall
    ensures Bearing(Noted(w.(phase := Persisting), Granted(w.f.rotation.value, token)))
  {
    var note := Granted(w.f.rotation.value, token);
    assert Bears(w.log, note);
    hide Bears, BearingLog, HasGrant, LastAdopted;
    BearingAppend(w.log, note);
    GrantsAppend(w.log, note);
  }

  lemma ReleasedBears(w: World, waiter: Waiter, ok: bool, call: Option<nat>, now: nat)
    requires Bearing(w) && w.phase.Idle? && (ok && call.Some? ==> w.f.token.Some? && HasGrant(w.log, call.value))
    ensures var w' := Released(w, waiter, ok, call, now);
      && Bearing(w') && w'.phase.Idle? && w'.nextCall == w.nextCall
      && (ok && call.Some? ==> w'.f.token.Some? && HasGrant(w'.log, call.value))
  {
    if waiter.Request? {
      var note := if ok && call.Some? then Sent(waiter.rid, w.f.token, After(call.value)) else Unsent(waiter.rid, call);
      assert Bears(w.log, note);
      hide Bears, BearingLog, HasGrant, LastAdopted;
      NotedBears(w, note);
      GrantsAppend(w.log, note);
    }
  }

  lemma {:induction false} ReleasedAllBears(w: World, waiters: seq<Waiter>, ok: bool, call: nat, now: nat)
    requires Bearing(w) && w.phase.Idle? && (ok ==> w.f.token.Some? && HasGrant(w.log, call))
    ensures Bearing(ReleasedAll(w, waiters, ok, call, now))
    decreases |waiters|
  {
    hide Bearing, HasGrant, Released;
    if waiters != [] {
      ReleasedBears(w, waiters[0], ok, Some(call), now);
      ReleasedAllBears(Released(w, waiters[0], ok, Some(call), now), waiters[1..], ok, call, now);
    }
  }

  lemma SettleBears(w: World, ok: bool, now: nat)
    requires Bearing(w) && w.f.rotation.Some? && (ok ==> w.f.token.Some? && w.phase.Persisting?)
    ensures Bearing(Settle(w, ok, now))
  {
    var call := w.f.rotation.value;
    var note := Settled(call, ok);
    assert Bears(w.log, note);
    hide Bears, BearingLog, HasGrant, LastAdopted, ReleasedAll;
    var w1 := Noted(w, note).(f := w.f.(rotation := None), phase := Idle, waiters := []);
    NotedBears(w, note);
    GrantsAppend(w.log, note);
    assert Bearing(w1);
    ReleasedAllBears(w1, w.waiters, ok, call, now);
  }

  lemma AwaitsBears(w: World, waiter: Waiter, now: nat)
    requires Bearing(w) && Inv(w)
    ensures Bearing(Awaits(w, waiter, now))
  {
    hide LawfulLog, Outstanding, Accounted, LastAdopted;
    match TicketFor(w.f, w.nextCall)
    case NoSession =>
      assert waiter.Request? ==> Bears(w.log, Unsent(waiter.rid, None));
      hide BearingLog, HasGrant, Bears;
      if waiter.Request? {
        NotedBears(w, Unsent(waiter.rid, None));
      }
    case Joined(call) => WaitBears(w.(waiters := w.waiters + [waiter]), waiter, call);
    case Started(call) =>
      RotatingBears(w, [waiter]);
      WaitBears(Rotating(w, call, [waiter]), waiter, call);
  }

  lemma WaitBears(w: World, waiter: Waiter, call: nat)
    requires Bearing(w)
    ensures Bearing(NotedWait(w, waiter, call))
  {
    if waiter.Request? {
      assert Bears(w.log, Waits(waiter.rid, call));
      hide BearingLog, HasGrant, Bears, LastAdopted;
      NotedBears(w, Waits(waiter.rid, call));
    }
  }

  lemma RotatingBears(w: World, waiters: seq<Waiter>)
    requires Bearing(w) && w.f.rotation.None?
    ensures Bearing(Rotating(w, w.nextCall, waiters))
  {
    var note := Rotate(w.nextCall);
    assert Bears(w.log, note);
    assert !HasGrant(w.log, w.nextCall);
    hide Bears, BearingLog, HasGrant, LastAdopted;
    BearingAppend(w.log, note);
    GrantsAppend(w.log, note);
  }

  lemma StepBears(w: World, a: Action)
    requires Bearing(w) && Inv(w)
    ensures Bearing(Step(w, a))
  {
    hide LawfulLog, Outstanding, Accounted, BearingLog, HasGrant, LastAdopted, Awaits, Settle;
    match a
    case Adopt(token, expiresAt) => AdoptedBears(w, token, expiresAt);
    case Arm(now) =>
    case Resume(token, expiresAt, now) =>
      AdoptedBears(w, token, expiresAt);
      AdoptionKeepsInv(w, token, expiresAt);
      if Stale(AdoptedWorld(w, token, expiresAt).f, now) {
        AwaitsBears(AdoptedWorld(w, token, expiresAt), Resuming, now);
      }
    case Fetch(rid, now) => FetchBears(w, rid, now);
    case Fire(timer, now) =>
      if timer in w.timers {
        var w1 := w.(f := w.f.(timer := None), timers := w.timers - {timer});
        SameLogKeepsInv(w, w1);
        AwaitsBears(w1, if timer in w.retries then RetryTimer else FirstTimer, now);
      }
    case Answer(token, expiresAt) =>
      if w.phase.OnTheWire? {
        AdoptedBears(w, token, expiresAt);
        AdoptionIsLast(w.log, token, expiresAt);
        GrantBears(AdoptedWorld(w, token, expiresAt), token);
      }
    case Fail(now) =>
      if w.f.rotation.Some? {
        SettleBears(w, false, now);
      }
    case Persisted(now) =>
      if w.phase.Persisting? {
        SettleBears(Scheduled(w, now), true, now);
      }
  }

  lemma AdoptionIsLast(log: seq<Note>, token: string, expiresAt: nat)
    ensures LastAdopted(log + [Adoption(token, expiresAt)]) == Some(token)
  {
  }

  lemma FetchBears(w: World, rid: nat, now: nat)
    requires Bearing(w) && Inv(w)
    ensures Bearing(Step(w, Fetch(rid, now)))
  {
    hide LawfulLog, Outstanding, Accounted, Awaits;
    if w.f.token.None? {
      NotedBears(w, Unsent(rid, None));
    } else if Stale(w.f, now) {
      AwaitsBears(w, Request(rid), now);
    } else {
      NotedBears(w, Sent(rid, w.f.token, Fresh(w.f.expiresAt, now)));
    }
  }

  lemma {:induction false} TraceBears(w: World, actions: seq<Action>)
    requires Bearing(w) && Inv(w)
    ensures Bearing(Trace(w, actions))
    decreases |actions|
  {
    hide Bearing, Inv, Step;
    if actions != [] {
      StepBears(w, actions[0]);
      StepKeepsInv(w, actions[0]);
      TraceBears(Step(w, actions[0]), actions[1..]);
    }
  }

  /** No session has been accepted since note j. */
  predicate NothingAdopted(log: seq<Note>, j: nat, k: nat)
    requires k <= |log|
  {
    forall m | j < m < k :: !log[m].Adoption?
  }

  lemma {:induction false} LastAdoptedStays(log: seq<Note>, j: nat, k: nat)
    requires j <= k <= |log| && forall m | j <= m < k :: !log[m].Adoption?
    ensures LastAdopted(log[..k]) == LastAdopted(log[..j])
    decreases k
  {
    if j < k {
      assert log[..k][..k - 1] == log[..k - 1];
      LastAdoptedStays(log, j, k - 1);
    }
  }

  /**
   * In every interleaving, a request that was released by a rotation bears the token of the session
   * that was accepted last. It is that of the rotation's own answer, of which there is just one,
   * unless another session has been accepted since; then it is exactly if that one has the same token.
   */
  lemma ReleasedRequestBearsItsRotation(actions: seq<Action>, k: nat)
    requires var log := Trace(Boot, actions).log; k < |log| && log[k].Sent? && log[k].ground.After?
    ensures var log := Trace(Boot, actions).log;
      && (exists j | 0 <= j < k :: log[j].Granted? && log[j].call == log[k].ground.call)
      && (forall j | 0 <= j < k && log[j].Granted? && log[j].call == log[k].ground.call ::
            && (NothingAdopted(log, j, k) ==> log[k].bearer == Some(log[j].token))
            && (log[k].bearer == Some(log[j].token) <==> LastAdopted(log[..k]) == Some(log[j].token)))
      && (forall i, j | 0 <= i < j < |log| && log[i].Granted? && log[j].Granted? :: log[i].call != log[j].call)
  {
    hide Trace, LastAdopted;
    BootHoldsInv();
    assert Bearing(Boot);
    TraceBears(Boot, actions);
    var log := Trace(Boot, actions).log;
    assert Bears(log[..k], log[k]);
    var token :| Granted(log[k].ground.call, token) in log[..k];
    var m :| 0 <= m < k && log[..k][m] == Granted(log[k].ground.call, token);
    assert log[m].Granted?;
    forall j | 0 <= j < k && log[j].Granted? && log[j].call == log[k].ground.call && NothingAdopted(log, j, k)
      ensures log[k].bearer == Some(log[j].token)
    {
      assert Bears(log[..j], log[j]);
      LastAdoptedStays(log, j, k);
    }
    forall i, j | 0 <= i < j < |log| && log[i].Granted? && log[j].Granted?
      ensures log[i].call != log[j].call
    {
      assert Bears(log[..j], log[j]);
      assert log[..j][i] == log[i];
    }
  }

  /** The exception is met: a browser is paired anew while the answer of the rotation is being stored. */
  lemma OvertakenAnswer()
    ensures var w := Trace(Boot, [Adopt("a", 0), Fetch(1, 0), Answer("b", 900_000), Adopt("c", 900_000), Persisted(0)]);
      Granted(0, "b") in w.log && Sent(1, Some("c"), After(0)) in w.log
  {
  }
}
