/**
 * The access token of `LocalApiClient` (dashboard/src/api/client.ts) and its rotation.
 *
 * The four private fields are a class, whose methods are the code between two awaits. A machine
 * says what these methods do together, when the actions of the page come in any order: requests, timer
 * callbacks, answers to the rotate call, completion of the session callback, and sessions from pairing
 * or from a store.
 */
module SessionRotation {
  import opened JsText

  const LEEWAY: nat := 120_000
  const RETRY_LEEWAY: nat := 15_000

  /** The delay of the rotation timer: until 120 s before the session expires, within bounds. */
  function RotationDelay(expiresAt: nat, now: nat): nat {
    var left: int := expiresAt - now - 120_000;
    if left < 1_000 then 1_000 else if left > 2_147_000_000 then 2_147_000_000 else left
  }

  /** `#token`, `#expiresAt`, `#rotationTimer`, `#rotationPromise`; timers and rotate calls are numbered. */
  datatype Fields = Fields(token: Option<string>, expiresAt: nat, timer: Option<nat>, rotation: Option<nat>)

  const Unpaired: Fields := Fields(None, 0, None, None)

  function Adopted(f: Fields, token: string, expiresAt: nat): Fields {
    f.(token := Some(token), expiresAt := expiresAt)
  }

  function Cleared(f: Fields): Fields {
    f.(token := None, expiresAt := 0, timer := None)
  }

  predicate Stale(f: Fields, now: nat) {
    f.expiresAt <= now + LEEWAY
  }

  /** What `#rotateSession` gives its caller: a promise that is pending, or one that is rejected. */
  datatype Ticket = Joined(call: nat) | Started(call: nat) | NoSession

  function TicketFor(f: Fields, nextCall: nat): Ticket {
    if f.rotation.Some? then Joined(f.rotation.value)
    else if f.token.None? then NoSession
    else Started(nextCall)
  }

  class LocalApiClient {
    var token: Option<string>
    var expiresAt: nat
    var rotationTimer: Option<nat>
    var rotationPromise: Option<nat>

    function State(): Fields
      reads this
    {
      Fields(token, expiresAt, rotationTimer, rotationPromise)
    }

    constructor ()
      ensures State() == Unpaired
    {
      token, expiresAt, rotationTimer, rotationPromise := None, 0, None, None;
    }

    /** The assignments of `#acceptSession`, `restoreSession` and `resumeSession`. */
    method AdoptSession(accessToken: string, expiry: nat)
      modifies this
      ensures State() == Adopted(old(State()), accessToken, expiry)
    {
      token := Some(accessToken);
      expiresAt := expiry;
    }

    /** The part of `#fetch` before its first await. */
    method CheckSession(now: nat) returns (paired: bool, mustRotate: bool)
      ensures paired == State().token.Some?
      ensures mustRotate == (paired && Stale(State(), now))
    {
      if token.None? {
        return false, false;
      }
      return true, expiresAt <= now + 120_000;
    }

    /** `#rotateSession`; `nextCall` numbers the promise that it may create. */
    method RotateSession(nextCall: nat) returns (ticket: Ticket)
      modifies this
      ensures ticket == TicketFor(old(State()), nextCall)
      ensures State() == if ticket.Started? then old(State()).(rotation := Some(nextCall)) else old(State())
    {
      if rotationPromise.Some? {
        return Joined(rotationPromise.value);
      }
      if token.None? {
        return NoSession;
      }
      rotationPromise := Some(nextCall);
      return Started(nextCall);
    }

    /** The `finally` of the rotation. */
    method SettleRotation()
      modifies this
      ensures State() == old(State()).(rotation := None)
    {
      rotationPromise := None;
    }

    /** `#scheduleRotation`: the timer that is dropped, and the delay of the new one. */
    method ScheduleRotation(now: nat, timer: nat) returns (dropped: Option<nat>, delay: nat)
      modifies this
      ensures State() == old(State()).(timer := Some(timer)) && dropped == old(State()).timer
      ensures delay == RotationDelay(expiresAt, now) && 1_000 <= delay <= 2_147_000_000
      ensures var left := expiresAt - now;
        1_000 + LEEWAY <= left <= 2_147_000_000 ==> now + delay == expiresAt - LEEWAY
    {
      dropped := rotationTimer;
      var left := expiresAt - now - 120_000;
      delay := if left < 1_000 then 1_000 else if left > 2_147_000_000 then 2_147_000_000 else left;
      rotationTimer := Some(timer);
    }

    /** The first statement of a timer callback. */
    method TimerFired()
      modifies this
      ensures State() == old(State()).(timer := None)
    {
      rotationTimer := None;
    }

    /**
     * The rejection handler of a timer callback: it sets a timer of its own exactly if that timer
     * still fires before the session expires.
     */
    method RetryLater(now: nat, timer: nat) returns (delay: Option<nat>)
      modifies this
      ensures State() == if delay.Some? then old(State()).(timer := Some(timer)) else old(State())
      ensures delay.Some? <==> State().expiresAt > now + RETRY_LEEWAY
      ensures delay.Some? ==> delay.value == RETRY_LEEWAY && now + delay.value < State().expiresAt
    {
      if expiresAt > now + 15_000 {
        rotationTimer := Some(timer);
        return Some(15_000);
      }
      return None;
    }

    method ClearSession() returns (dropped: Option<nat>)
      modifies this
      ensures State() == Cleared(old(State())) && dropped == old(State()).timer
    {
      dropped := rotationTimer;
      rotationTimer := None;
      token := None;
      expiresAt := 0;
    }
  }

  // ----- the machine

  datatype Waiter = Request(rid: nat) | Resuming | FirstTimer | RetryTimer

  /** Why a request was let through. */
  datatype Ground = Fresh(expiresAt: nat, now: nat) | After(call: nat)

  datatype Note =
    | Adoption(token: string, expiresAt: nat)
    | Rotate(call: nat)
    | Granted(call: nat, token: string)
    | Settled(call: nat, ok: bool)
    | Waits(rid: nat, call: nat)
    | Sent(rid: nat, bearer: Option<string>, ground: Ground)
    | Unsent(rid: nat, rejected: Option<nat>)

  datatype Phase = Idle | OnTheWire | Persisting

  /**
   * `timers` are the live timers, `retries` those that were set after a failed rotation, `due` tells
   * when a timer fires; `waiters` await the current rotation, in the order in which they came.
   */
  datatype World = World(
    f: Fields, phase: Phase, waiters: seq<Waiter>,
    timers: set<nat>, retries: set<nat>, due: map<nat, nat>, nextTimer: nat, nextCall: nat,
    log: seq<Note>)

  const Boot: World := World(Unpaired, Idle, [], {}, {}, map[], 0, 0, [])

  datatype Action =
    | Adopt(token: string, expiresAt: nat)
    | Arm(now: nat)
    | Resume(token: string, expiresAt: nat, now: nat)
    | Fetch(rid: nat, now: nat)
    | Fire(timer: nat, now: nat)
    | Answer(token: string, expiresAt: nat)
    | Fail(now: nat)
    | Persisted(now: nat)

  function Noted(w: World, note: Note): World {
    w.(log := w.log + [note])
  }

  /** A session is accepted: its token and its expiry come together. */
  function AdoptedWorld(w: World, token: string, expiresAt: nat): World {
    Noted(w.(f := Adopted(w.f, token, expiresAt)), Adoption(token, expiresAt))
  }

  function Drop(timers: set<nat>, timer: Option<nat>): set<nat> {
    if timer.Some? then timers - {timer.value} else timers
  }

  function SetTimer(w: World, retry: bool, due: nat): World {
    w.(f := w.f.(timer := Some(w.nextTimer)),
       timers := w.timers + {w.nextTimer},
       retries := if retry then w.retries + {w.nextTimer} else w.retries,
       due := w.due[w.nextTimer := due],
       nextTimer := w.nextTimer + 1)
  }

  /** `#scheduleRotation` drops the timer it knows and sets a new one. */
  function Scheduled(w: World, now: nat): World {
    SetTimer(w.(timers := Drop(w.timers, w.f.timer)), false, now + RotationDelay(w.f.expiresAt, now))
  }

  function ClearedWorld(w: World): World {
    w.(f := Cleared(w.f), timers := Drop(w.timers, w.f.timer))
  }

  function RetriedLater(w: World, now: nat): World {
    if w.f.expiresAt > now + RETRY_LEEWAY then SetTimer(w, true, now + RETRY_LEEWAY) else w
  }

  /** A caller of `#rotateSession` that awaits the result. */
  function Awaits(w: World, waiter: Waiter, now: nat): World {
    match TicketFor(w.f, w.nextCall)
    case NoSession => Released(w, waiter, false, None, now)
    case Joined(call) => NotedWait(w.(waiters := w.waiters + [waiter]), waiter, call)
    case Started(call) =>
      NotedWait(Rotating(w, call, [waiter]), waiter, call)
  }

  /** A rotate call is on the wire. */
  function Rotating(w: World, call: nat, waiters: seq<Waiter>): World {
    World(w.f.(rotation := Some(call)), OnTheWire, waiters, w.timers, w.retries, w.due, w.nextTimer, call + 1,
          w.log + [Rotate(call)])
  }

  function NotedWait(w: World, waiter: Waiter, call: nat): World {
    if waiter.Request? then Noted(w, Waits(waiter.rid, call)) else w
  }

  /** What a waiter does once the promise it awaits is settled. */
  function Released(w: World, waiter: Waiter, ok: bool, call: Option<nat>, now: nat): World {
    match waiter
    case Request(rid) =>
      if ok && call.Some? then Noted(w, Sent(rid, w.f.token, After(call.value))) else Noted(w, Unsent(rid, call))
    case Resuming => if ok then w else ClearedWorld(w)
    case FirstTimer => if ok then w else RetriedLater(w, now)
    case RetryTimer => w
  }

  function ReleasedAll(w: World, waiters: seq<Waiter>, ok: bool, call: nat, now: nat): World
    decreases |waiters|
  {
    if waiters == [] then w
    else ReleasedAll(Released(w, waiters[0], ok, Some(call), now), waiters[1..], ok, call, now)
  }

  /** The promise settles: the slot is emptied first, then every waiter goes on. */
  function Settle(w: World, ok: bool, now: nat): World
    requires w.f.rotation.Some?
  {
    var call := w.f.rotation.value;
    ReleasedAll(
      Noted(w, Settled(call, ok)).(f := w.f.(rotation := None), phase := Idle, waiters := []),
      w.waiters, ok, call, now)
  }

  function Step(w: World, a: Action): World {
    match a
    case Adopt(token, expiresAt) => AdoptedWorld(w, token, expiresAt)
    case Arm(now) => Scheduled(w, now)
    case Resume(token, expiresAt, now) =>
      var w' := AdoptedWorld(w, token, expiresAt);
      if Stale(w'.f, now) then Awaits(w', Resuming, now) else Scheduled(w', now)
    case Fetch(rid, now) =>
      if w.f.token.None? then Noted(w, Unsent(rid, None))
      else if Stale(w.f, now) then Awaits(w, Request(rid), now)
      else Noted(w, Sent(rid, w.f.token, Fresh(w.f.expiresAt, now)))
    case Fire(timer, now) =>
      if timer !in w.timers then w
      else
        var waiter := if timer in w.retries then RetryTimer else FirstTimer;
        Awaits(w.(f := w.f.(timer := None), timers := w.timers - {timer}), waiter, now)
    case Answer(token, expiresAt) =>
      if w.phase.OnTheWire? && w.f.rotation.Some? then
        Noted(AdoptedWorld(w, token, expiresAt).(phase := Persisting), Granted(w.f.rotation.value, token))
      else w
    case Fail(now) =>
      if w.f.rotation.Some? then Settle(w, false, now) else w
    case Persisted(now) =>
      if w.phase.Persisting? && w.f.rotation.Some? then Settle(Scheduled(w, now), true, now) else w
  }

  function Trace(w: World, actions: seq<Action>): World
    decreases |actions|
  {
    if actions == [] then w else Trace(Step(w, actions[0]), actions[1..])
  }

  // ----- the code of one step

  method Schedule(client: LocalApiClient, w: World, now: nat) returns (w': World)
    requires client.State() == w.f
    modifies client
    ensures w' == Scheduled(w, now) && client.State() == w'.f
  {
    var dropped, delay := client.ScheduleRotation(now, w.nextTimer);
    w' := w.(f := client.State(), timers := Drop(w.timers, dropped) + {w.nextTimer},
             due := w.due[w.nextTimer := now + delay], nextTimer := w.nextTimer + 1);
  }

  /** What a waiter does once its promise is settled. */
  method Release(client: LocalApiClient, w: World, waiter: Waiter, ok: bool, call: Option<nat>, now: nat) returns (w': World)
    requires client.State() == w.f
    modifies client
    ensures w' == Released(w, waiter, ok, call, now) && client.State() == w'.f
  {
    w' := w;
    match waiter {
      case Request(rid) =>
        if ok && call.Some? {
          w' := Noted(w, Sent(rid, client.token, After(call.value)));
        } else {
          w' := Noted(w, Unsent(rid, call));
        }
      case Resuming =>
        if !ok {
          var dropped := client.ClearSession();
          w' := w.(f := client.State(), timers := Drop(w.timers, dropped));
        }
      case FirstTimer =>
        if !ok {
          var delay := client.RetryLater(now, w.nextTimer);
          if delay.Some? {
            w' := w.(f := client.State(), timers := w.timers + {w.nextTimer}, retries := w.retries + {w.nextTimer},
                     due := w.due[w.nextTimer := now + delay.value], nextTimer := w.nextTimer + 1);
          }
        }
      case RetryTimer =>
    }
  }

  /** Calling `#rotateSession` and waiting for what it gives. */
  method Await(client: LocalApiClient, w: World, waiter: Waiter, now: nat) returns (w': World)
    requires client.State() == w.f
    modifies client
    ensures w' == Awaits(w, waiter, now) && client.State() == w'.f
  {
    var ticket := client.RotateSession(w.nextCall);
    match ticket {
      case NoSession =>
        w' := Release(client, w, waiter, false, None, now);
      case Joined(call) =>
        w' := NotedWait(w.(waiters := w.waiters + [waiter]), waiter, call);
      case Started(call) =>
        w' := World(client.State(), OnTheWire, [waiter], w.timers, w.retries, w.due, w.nextTimer, call + 1,
                    w.log + [Rotate(call)]);
        w' := NotedWait(w', waiter, call);
    }
  }

  /** The promise of a rotation settles, and its waiters go on in turn. */
  method SettleAndRelease(client: LocalApiClient, w: World, ok: bool, now: nat) returns (w': World)
    requires client.State() == w.f && w.f.rotation.Some?
    modifies client
    ensures w' == Settle(w, ok, now) && client.State() == w'.f
  {
    hide Released;
    var call := w.f.rotation.value;
    client.SettleRotation();
    w' := Noted(w, Settled(call, ok)).(f := client.State(), phase := Idle, waiters := []);
    ghost var settled := w';
    for k := 0 to |w.waiters|
      invariant client.State() == w'.f
      invariant ReleasedAll(settled, w.waiters, ok, call, now) == ReleasedAll(w', w.waiters[k..], ok, call, now)
    {
      assert w.waiters[k..][0] == w.waiters[k] && w.waiters[k..][1..] == w.waiters[k + 1..];
      w' := Release(client, w', w.waiters[k], ok, Some(call), now);
    }
  }

  /** One action of the page, performed by the code: it does to the fields what the machine says. */
  method Perform(client: LocalApiClient, w: World, a: Action) returns (w': World)
    requires client.State() == w.f
    modifies client
    ensures w' == Step(w, a) && client.State() == w'.f
  {
    hide Settle, Scheduled, Awaits;
    w' := w;
    match a {
      case Adopt(token, expiresAt) =>
        client.AdoptSession(token, expiresAt);
        w' := Noted(w.(f := client.State()), Adoption(token, expiresAt));
      case Arm(now) =>
        w' := Schedule(client, w, now);
      case Resume(token, expiresAt, now) =>
        client.AdoptSession(token, expiresAt);
        w' := Noted(w.(f := client.State()), Adoption(token, expiresAt));
        var _, mustRotate := client.CheckSession(now);
        if mustRotate {
          w' := Await(client, w', Resuming, now);
        } else {
          w' := Schedule(client, w', now);
        }
      case Fetch(rid, now) =>
        var paired, mustRotate := client.CheckSession(now);
        if !paired {
          w' := Noted(w, Unsent(rid, None));
        } else if mustRotate {
          w' := Await(client, w, Request(rid), now);
        } else {
          w' := Noted(w, Sent(rid, client.token, Fresh(client.expiresAt, now)));
        }
      case Fire(timer, now) =>
        if timer in w.timers {
          client.TimerFired();
          w' := w.(f := client.State(), timers := w.timers - {timer});
          w' := Await(client, w', if timer in w.retries then RetryTimer else FirstTimer, now);
        }
      case Answer(token, expiresAt) =>
        if w.phase.OnTheWire? && client.rotationPromise.Some? {
          client.AdoptSession(token, expiresAt);
          w' := Noted(w.(f := client.State(), phase := Persisting), Adoption(token, expiresAt));
          w' := Noted(w', Granted(client.rotationPromise.value, token));
        }
      case Fail(now) =>
        if client.rotationPromise.Some? {
          w' := SettleAndRelease(client, w, false, now);
        }
      case Persisted(now) =>
        if w.phase.Persisting? && client.rotationPromise.Some? {
          w' := Schedule(client, w, now);
          ScheduledKeepsSlot(w, now);
          w' := SettleAndRelease(client, w', true, now);
        }
    }
  }

  lemma ScheduledKeepsSlot(w: World, now: nat)
    ensures Scheduled(w, now).f.rotation == w.f.rotation
  {
  }

  // ----- laws of the log

  /** The rotate calls that have been sent and not settled. */
  function Outstanding(log: seq<Note>): set<nat> {
    if log == [] then {}
    else Noting(Outstanding(log[..|log| - 1]), log[|log| - 1])
  }

  function Noting(calls: set<nat>, note: Note): set<nat> {
    match note
    case Rotate(call) => calls + {call}
    case Settled(call, _) => calls - {call}
    case _ => calls
  }

  ghost predicate HasSettled(log: seq<Note>, call: nat) {
    Settled(call, true) in log || Settled(call, false) in log
  }

  ghost predicate WasAdopted(log: seq<Note>, token: string) {
    exists expiresAt :: Adoption(token, expiresAt) in log
  }

  /** The fields hold a session that was accepted, as it was accepted. */
  ghost predicate Genuine(f: Fields, log: seq<Note>) {
    f.token.Some? ==> Adoption(f.token.value, f.expiresAt) in log
  }

  /** When a note may be added to a log. */
  ghost predicate Lawful(log: seq<Note>, note: Note) {
    match note
    case Rotate(call) => Outstanding(log) == {} && Rotate(call) !in log
    case Settled(call, _) => call in Outstanding(log) && !HasSettled(log, call)
    case Waits(_, call) => call in Outstanding(log)
    case Adoption(_, _) => true
    case Granted(call, token) => call in Outstanding(log) && WasAdopted(log, token)
    case Sent(_, bearer, ground) =>
      && bearer.Some?
      && (ground.Fresh? ==> Adoption(bearer.value, ground.expiresAt) in log && ground.expiresAt > ground.now + LEEWAY)
      && (ground.After? ==> WasAdopted(log, bearer.value) && Settled(ground.call, true) in log)
    case Unsent(_, rejected) => rejected.Some? ==> Settled(rejected.value, false) in log
  }

  ghost predicate LawfulLog(log: seq<Note>) {
    forall k | 0 <= k < |log| :: Lawful(log[..k], log[k])
  }

  lemma LawfulAppend(log: seq<Note>, note: Note)
    requires LawfulLog(log) && Lawful(log, note)
    ensures LawfulLog(log + [note])
  {
    hide Lawful;
    var t := log + [note];
    forall k | 0 <= k < |t| ensures Lawful(t[..k], t[k]) {
      assert t[..k] == log[..k];
      assert log[..|log|] == log;
    }
  }

  /** A waiting request has been answered as its rotation was. */
  ghost predicate Answered(log: seq<Note>, rid: nat, call: nat) {
    || (Settled(call, true) in log && exists token :: Sent(rid, token, After(call)) in log)
    || (Settled(call, false) in log && Unsent(rid, Some(call)) in log)
  }

  ghost predicate Accounted(w: World, rid: nat, call: nat) {
    (w.f.rotation == Some(call) && Request(rid) in w.waiters) || Answered(w.log, rid, call)
  }

  ghost predicate Inv(w: World) {
    && (w.phase.Idle? <==> w.f.rotation.None?)
    && (w.phase.Idle? ==> w.waiters == [])
    && (w.phase.Persisting? ==> w.f.token.Some?)
    && (w.f.token.None? ==> w.f.expiresAt == 0)
    && Genuine(w.f, w.log)
    && Outstanding(w.log) == (if w.f.rotation.Some? then {w.f.rotation.value} else {})
    && (w.f.rotation.Some? ==> !HasSettled(w.log, w.f.rotation.value))
    && (forall note | note in w.log && note.Rotate? :: note.call < w.nextCall)
    && (forall note | note in w.log && note.Settled? :: note.call < w.nextCall)
    && (w.f.rotation.Some? ==> w.f.rotation.value < w.nextCall)
    && LawfulLog(w.log)
    && (forall note | note in w.log && note.Waits? :: Accounted(w, note.rid, note.call))
  }

  // ----- steps

  lemma OutstandingAppend(log: seq<Note>, note: Note)
    ensures Outstanding(log + [note]) == Noting(Outstanding(log), note)
  {
    assert (log + [note])[..|log|] == log;
  }

  /** A longer log answers what a shorter one answered. */
  lemma AnsweredGrows(log: seq<Note>, more: seq<Note>, rid: nat, call: nat)
    requires Answered(log, rid, call) && log <= more
    ensures Answered(more, rid, call)
  {
    assert forall note | note in log :: note in more;
  }

  /** Notes that are about no rotate call leave everything else alone. */
  lemma NotedKeepsInv(w: World, note: Note)
    requires Inv(w) && Lawful(w.log, note) && (note.Sent? || note.Unsent? || note.Adoption? || note.Granted?)
    ensures Inv(Noted(w, note))
  {
    hide Lawful, LawfulLog, Answered;
    var w' := Noted(w, note);
    LawfulAppend(w.log, note);
    OutstandingAppend(w.log, note);
    forall n | n in w'.log && n.Waits? ensures Accounted(w', n.rid, n.call) {
      assert n in w.log;
      if !(w.f.rotation == Some(n.call) && Request(n.rid) in w.waiters) {
        AnsweredGrows(w.log, w'.log, n.rid, n.call);
      }
    }
  }

  /** What releasing a list of waiters does to the log. */
  ghost predicate AllAnswered(log: seq<Note>, waiters: seq<Waiter>, call: nat) {
    forall rid | Request(rid) in waiters :: Answered(log, rid, call)
  }

  /** Before the waiters go on: the promise is settled, the slot is empty. */
  ghost predicate Releasing(w: World, ok: bool, call: nat) {
    && w.phase.Idle? && w.f.rotation.None? && w.waiters == []
    && (ok ==> w.f.token.Some?)
    && (w.f.token.None? ==> w.f.expiresAt == 0)
    && Genuine(w.f, w.log)
    && Outstanding(w.log) == {}
    && LawfulLog(w.log)
    && Settled(call, ok) in w.log
    && (forall note | note in w.log && (note.Rotate? || note.Settled?) :: note.call < w.nextCall)
  }

  lemma ReleasedStep(w: World, waiter: Waiter, ok: bool, call: nat, now: nat)
    requires Releasing(w, ok, call)
    ensures var w' := Released(w, waiter, ok, Some(call), now);
      && Releasing(w', ok, call) && w.log <= w'.log && w'.nextCall == w.nextCall
      && (forall note | note in w'.log && note.Waits? :: note in w.log)
      && AllAnswered(w'.log, [waiter], call)
  {
    hide LawfulLog, Outstanding;
    if waiter.Request? {
      var note := if ok then Sent(waiter.rid, w.f.token, After(call)) else Unsent(waiter.rid, Some(call));
      assert Lawful(w.log, note);
      hide Lawful;
      LawfulAppend(w.log, note);
      OutstandingAppend(w.log, note);
      assert note in w.log + [note];
    }
  }

  lemma {:induction false} ReleasedAllSteps(w: World, waiters: seq<Waiter>, ok: bool, call: nat, now: nat)
    requires Releasing(w, ok, call)
    ensures var w' := ReleasedAll(w, waiters, ok, call, now);
      && Releasing(w', ok, call) && w.log <= w'.log && w'.nextCall == w.nextCall
      && (forall note | note in w'.log && note.Waits? :: note in w.log)
      && AllAnswered(w'.log, waiters, call)
    decreases |waiters|
  {
    hide Released, Releasing, Answered;
    if waiters != [] {
      ReleasedStep(w, waiters[0], ok, call, now);
      var w1 := Released(w, waiters[0], ok, Some(call), now);
      ReleasedAllSteps(w1, waiters[1..], ok, call, now);
      var w' := ReleasedAll(w, waiters, ok, call, now);
      forall rid | Request(rid) in waiters ensures Answered(w'.log, rid, call) {
        if waiters[0] == Request(rid) {
          assert Request(rid) in [waiters[0]];
          AnsweredGrows(w1.log, w'.log, rid, call);
        } else {
          assert Request(rid) in waiters[1..];
        }
      }
    }
  }

  lemma SettleKeepsInv(w: World, ok: bool, now: nat)
    requires Inv(w) && w.f.rotation.Some? && (ok ==> w.f.token.Some?)
    ensures Inv(Settle(w, ok, now))
  {
    hide Lawful, LawfulLog, Answered, ReleasedAll;
    var call := w.f.rotation.value;
    var note := Settled(call, ok);
    var w1 := Noted(w, note).(f := w.f.(rotation := None), phase := Idle, waiters := []);
    SettledIsLawful(w, ok);
    LawfulAppend(w.log, note);
    OutstandingAppend(w.log, note);
    ReleasedAllSteps(w1, w.waiters, ok, call, now);
    var w' := Settle(w, ok, now);
    forall n | n in w'.log && n.Waits? ensures Accounted(w', n.rid, n.call) {
      assert n in w1.log && n in w.log;
      if Answered(w.log, n.rid, n.call) {
        AnsweredGrows(w.log, w'.log, n.rid, n.call);
      } else {
        assert n.call == call && Request(n.rid) in w.waiters;
      }
    }
  }

  lemma SettledIsLawful(w: World, ok: bool)
    requires Inv(w) && w.f.rotation.Some?
    ensures Lawful(w.log, Settled(w.f.rotation.value, ok))
  {
  }

  lemma AwaitsKeepsInv(w: World, waiter: Waiter, now: nat)
    requires Inv(w)
    ensures Inv(Awaits(w, waiter, now))
  {
    hide LawfulLog, Lawful, Answered, Accounted, Inv, Outstanding;
    match TicketFor(w.f, w.nextCall)
    case NoSession =>
      UnpairedKeepsInv(w, waiter, now);
    case Joined(call) => JoinKeepsInv(w, waiter, call);
    case Started(call) =>
      RotatingKeepsInv(w);
      JoinKeepsInv(Rotating(w, call, []), waiter, call);
      assert [] + [waiter] == [waiter];
  }

  /** Without a session the promise is rejected at once. */
  lemma UnpairedKeepsInv(w: World, waiter: Waiter, now: nat)
    requires Inv(w) && w.f.token.None?
    ensures Inv(Released(w, waiter, false, None, now))
  {
    hide LawfulLog, Answered;
    if waiter.Request? {
      NotedKeepsInv(w, Unsent(waiter.rid, None));
    } else {
      SameLogKeepsInv(w, Released(w, waiter, false, None, now));
    }
  }

  /** A new rotate call, before anyone awaits it. */
  lemma RotatingKeepsInv(w: World)
    requires Inv(w) && w.f.rotation.None? && w.f.token.Some?
    ensures Inv(Rotating(w, w.nextCall, []))
  {
    hide LawfulLog, Answered;
    var note := Rotate(w.nextCall);
    var w1 := Rotating(w, w.nextCall, []);
    assert Lawful(w.log, note);
    assert !HasSettled(w1.log, w.nextCall);
    hide Lawful;
    LawfulAppend(w.log, note);
    OutstandingAppend(w.log, note);
    forall n | n in w1.log && n.Waits? ensures Accounted(w1, n.rid, n.call) {
      assert n in w.log && w.waiters == [];
      AnsweredGrows(w.log, w1.log, n.rid, n.call);
    }
  }

  lemma JoinKeepsInv(w: World, waiter: Waiter, call: nat)
    requires Inv(w) && w.f.rotation == Some(call)
    ensures Inv(NotedWait(w.(waiters := w.waiters + [waiter]), waiter, call))
  {
    hide LawfulLog, Answered;
    var w1 := w.(waiters := w.waiters + [waiter]);
    var w' := NotedWait(w1, waiter, call);
    if waiter.Request? {
      LawfulAppend(w.log, Waits(waiter.rid, call));
      OutstandingAppend(w.log, Waits(waiter.rid, call));
    }
    forall n | n in w'.log && n.Waits? ensures Accounted(w', n.rid, n.call) {
      if n in w.log {
        if Answered(w.log, n.rid, n.call) {
          AnsweredGrows(w.log, w'.log, n.rid, n.call);
        }
      } else {
        assert n == Waits(waiter.rid, call);
        assert waiter in w'.waiters;
      }
    }
  }

  /** Every step keeps the invariant. */
  lemma StepKeepsInv(w: World, a: Action)
    requires Inv(w)
    ensures Inv(Step(w, a))
  {
    hide Lawful, LawfulLog, Answered, Awaits, Settle;
    match a
    case Adopt(token, expiresAt) => AdoptionKeepsInv(w, token, expiresAt);
    case Arm(now) => SameLogKeepsInv(w, Scheduled(w, now));
    case Resume(token, expiresAt, now) =>
      var w1 := AdoptedWorld(w, token, expiresAt);
      AdoptionKeepsInv(w, token, expiresAt);
      if Stale(w1.f, now) {
        AwaitsKeepsInv(w1, Resuming, now);
      } else {
        SameLogKeepsInv(w1, Scheduled(w1, now));
      }
    case Fetch(rid, now) => FetchKeepsInv(w, rid, now);
    case Fire(timer, now) =>
      if timer in w.timers {
        var w1 := w.(f := w.f.(timer := None), timers := w.timers - {timer});
        SameLogKeepsInv(w, w1);
        AwaitsKeepsInv(w1, if timer in w.retries then RetryTimer else FirstTimer, now);
      }
    case Answer(token, expiresAt) =>
      AdoptionKeepsInv(w, token, expiresAt);
      if w.phase.OnTheWire? {
        GrantKeepsInv(AdoptedWorld(w, token, expiresAt), token, expiresAt);
      }
    case Fail(now) =>
      if w.f.rotation.Some? {
        SettleKeepsInv(w, false, now);
      }
    case Persisted(now) =>
      if w.phase.Persisting? {
        SameLogKeepsInv(w, Scheduled(w, now));
        SettleKeepsInv(Scheduled(w, now), true, now);
      }
  }

  lemma AdoptionKeepsInv(w: World, token: string, expiresAt: nat)
    requires Inv(w)
    ensures Inv(AdoptedWorld(w, token, expiresAt))
  {
    hide Inv;
    var noted := Noted(w, Adoption(token, expiresAt));
    NotedKeepsInv(w, Adoption(token, expiresAt));
    assert Adoption(token, expiresAt) in noted.log;
    SameLogKeepsInv(noted, AdoptedWorld(w, token, expiresAt));
  }

  lemma GrantKeepsInv(w: World, token: string, expiresAt: nat)
    requires Inv(w) && w.phase.OnTheWire? && w.f.token.Some? && Adoption(token, expiresAt) in w.log
    ensures w.f.rotation.Some? && Inv(Noted(w.(phase := Persisting), Granted(w.f.rotation.value, token)))
  {
    PersistingKeepsInv(w);
    var persisting, note := w.(phase := Persisting), Granted(w.f.rotation.value, token);
    assert Lawful(persisting.log, note);
    hide Inv;
    NotedKeepsInv(persisting, note);
  }

  lemma PersistingKeepsInv(w: World)
    requires Inv(w) && w.phase.OnTheWire? && w.f.token.Some?
    ensures Inv(w.(phase := Persisting))
  {
    hide LawfulLog, Answered, Outstanding;
    forall note | note in w.log && note.Waits? ensures Accounted(w.(phase := Persisting), note.rid, note.call) {
      assert Accounted(w, note.rid, note.call);
    }
  }

  lemma SameLogKeepsInv(w: World, w': World)
    requires Inv(w)
    requires w'.log == w.log && w'.waiters == w.waiters && w'.phase == w.phase && w'.nextCall == w.nextCall
    requires w'.f.rotation == w.f.rotation
    requires (w'.f.token == w.f.token && w'.f.expiresAt == w.f.expiresAt) || (w'.f.token.Some? && Genuine(w'.f, w.log))
    ensures Inv(w')
  {
    hide LawfulLog, Answered;
    forall note | note in w'.log && note.Waits? ensures Accounted(w', note.rid, note.call) {
      assert Accounted(w, note.rid, note.call);
    }
  }

  lemma FetchKeepsInv(w: World, rid: nat, now: nat)
    requires Inv(w)
    ensures Inv(Step(w, Fetch(rid, now)))
  {
    hide LawfulLog, Answered, Awaits;
    if w.f.token.None? {
      NotedKeepsInv(w, Unsent(rid, None));
    } else if Stale(w.f, now) {
      AwaitsKeepsInv(w, Request(rid), now);
    } else {
      NotedKeepsInv(w, Sent(rid, w.f.token, Fresh(w.f.expiresAt, now)));
    }
  }

  lemma {:induction false} TraceKeepsInv(w: World, actions: seq<Action>)
    requires Inv(w)
    ensures Inv(Trace(w, actions))
    decreases |actions|
  {
    hide Inv, Step;
    if actions != [] {
      StepKeepsInv(w, actions[0]);
      TraceKeepsInv(Step(w, actions[0]), actions[1..]);
    }
  }

  lemma BootHoldsInv()
    ensures Inv(Boot)
  {
  }

  // ----- the results

  /**
   * Single flight in every interleaving: when a rotate call is sent, every earlier one has settled;
   * each call settles at most once; and at any time the calls that have not settled are exactly the
   * content of the promise slot, which is therefore empty once a call has settled.
   */
  lemma SingleFlight(actions: seq<Action>)
    ensures var w := Trace(Boot, actions);
      && (forall k | 0 <= k < |w.log| && w.log[k].Rotate? :: Outstanding(w.log[..k]) == {})
      && (forall j, k | 0 <= j < k < |w.log| && w.log[j].Settled? && w.log[k].Settled? ::
            w.log[j].call != w.log[k].call)
      && Outstanding(w.log) == (if w.f.rotation.Some? then {w.f.rotation.value} else {})
  {
    hide Trace;
    BootHoldsInv();
    TraceKeepsInv(Boot, actions);
    var w := Trace(Boot, actions);
    forall j, k | 0 <= j < k < |w.log| && w.log[j].Settled? && w.log[k].Settled?
      ensures w.log[j].call != w.log[k].call
    {
      assert Lawful(w.log[..k], w.log[k]);
      assert w.log[..k][j] == w.log[j];
    }
  }

  /**
   * An authenticated request is sent only with a token that was accepted before, and only if that
   * token, by the expiry it was accepted with, had more than 120 seconds left when it was checked, or
   * the rotation that the request waited for succeeded; a request that waits shares the outcome of
   * its rotation with everyone else who waits for it.
   */
  lemma RequestsAreGrounded(actions: seq<Action>)
    ensures var w := Trace(Boot, actions);
      && (forall k | 0 <= k < |w.log| && w.log[k].Sent? ::
            var bearer, ground := w.log[k].bearer, w.log[k].ground;
            && bearer.Some? && WasAdopted(w.log[..k], bearer.value)
            && (ground.Fresh? ==>
                  Adoption(bearer.value, ground.expiresAt) in w.log[..k] && ground.expiresAt > ground.now + 120_000)
            && (ground.After? ==> Settled(ground.call, true) in w.log[..k]))
      && (forall note | note in w.log && note.Waits? ::
            || (w.f.rotation == Some(note.call) && Request(note.rid) in w.waiters)
            || (Settled(note.call, true) in w.log && exists token :: Sent(note.rid, token, After(note.call)) in w.log)
            || (Settled(note.call, false) in w.log && Unsent(note.rid, Some(note.call)) in w.log))
  {
    hide Trace, Outstanding;
    BootHoldsInv();
    TraceKeepsInv(Boot, actions);
    var w := Trace(Boot, actions);
    assert forall k | 0 <= k < |w.log| :: Lawful(w.log[..k], w.log[k]);
    assert forall note | note in w.log && note.Waits? :: Accounted(w, note.rid, note.call);
  }

  // ----- timers

  /** The only live timer is the one that `#rotationTimer` knows, and can cancel. */
  ghost predicate Tidy(w: World) {
    w.timers == if w.f.timer.Some? then {w.f.timer.value} else {}
  }

  ghost predicate TimersNumbered(w: World) {
    forall timer | timer in w.timers :: timer < w.nextTimer
  }

  /** The waiting timer callbacks that will see the session before a failed resume clears it. */
  function RetryingCallbacks(waiters: seq<Waiter>): nat {
    if waiters == [] || waiters[0].Resuming? then 0
    else (if waiters[0].FirstTimer? then 1 else 0) + RetryingCallbacks(waiters[1..])
  }

  /** The rejection handlers set more timers than the one field can know. */
  predicate Overbooks(w: World, now: nat) {
    && w.f.expiresAt > now + 15_000
    && RetryingCallbacks(w.waiters) + (if w.f.timer.Some? then 1 else 0) >= 2
  }

  ghost predicate HasOrphan(w: World) {
    exists timer :: timer in w.timers && w.f.timer != Some(timer)
  }

  lemma {:induction false} OrphansStay(w: World, waiters: seq<Waiter>, call: nat, now: nat)
    requires HasOrphan(w) && TimersNumbered(w)
    ensures HasOrphan(ReleasedAll(w, waiters, false, call, now))
    decreases |waiters|
  {
    if waiters != [] {
      var w1 := Released(w, waiters[0], false, Some(call), now);
      var orphan :| orphan in w.timers && w.f.timer != Some(orphan);
      assert orphan in w1.timers && w1.f.timer != Some(orphan);
      assert TimersNumbered(w1);
      OrphansStay(w1, waiters[1..], call, now);
    }
  }

  lemma {:induction false} FailureOverbooks(w: World, waiters: seq<Waiter>, call: nat, now: nat)
    requires Tidy(w) && TimersNumbered(w)
    ensures Tidy(ReleasedAll(w, waiters, false, call, now)) <==>
      !(w.f.expiresAt > now + RETRY_LEEWAY
        && RetryingCallbacks(waiters) + (if w.f.timer.Some? then 1 else 0) >= 2)
    decreases |waiters|
  {
    if waiters != [] {
      var w1 := Released(w, waiters[0], false, Some(call), now);
      assert TimersNumbered(w1);
      if waiters[0].FirstTimer? && w.f.expiresAt > now + RETRY_LEEWAY && w.f.timer.Some? {
        assert w.f.timer.value in w1.timers && w1.f.timer != w.f.timer;
        assert HasOrphan(w1);
        OrphansStay(w1, waiters[1..], call, now);
      } else {
        assert Tidy(w1);
        FailureOverbooks(w1, waiters[1..], call, now);
      }
    }
  }

  lemma {:induction false} SuccessKeepsTimers(w: World, waiters: seq<Waiter>, call: nat, now: nat)
    ensures var w' := ReleasedAll(w, waiters, true, call, now);
      w'.f == w.f && w'.timers == w.timers && w'.nextTimer == w.nextTimer
    decreases |waiters|
  {
    if waiters != [] {
      SuccessKeepsTimers(Released(w, waiters[0], true, Some(call), now), waiters[1..], call, now);
    }
  }

  /**
   * A step from a tidy state leaves a timer behind that nobody can cancel exactly when it is a
   * failed rotation whose timer callbacks, with the timer already pending, need more than one
   * timer: the retry timer is set without looking at the field.
   */
  lemma TimersStayTidy(w: World, a: Action)
    requires Inv(w) && Tidy(w) && TimersNumbered(w)
    ensures Tidy(Step(w, a)) <==> !(a.Fail? && w.f.rotation.Some? && Overbooks(w, a.now))
  {
    hide LawfulLog, Outstanding, Accounted;
    match a
    case Fail(now) =>
      if w.f.rotation.Some? {
        var call := w.f.rotation.value;
        var w1 := Noted(w, Settled(call, false)).(f := w.f.(rotation := None), phase := Idle, waiters := []);
        FailureOverbooks(w1, w.waiters, call, now);
      }
    case Persisted(now) =>
      if w.phase.Persisting? && w.f.rotation.Some? {
        var s := Scheduled(w, now);
        var call := s.f.rotation.value;
        var w1 := Noted(s, Settled(call, true)).(f := s.f.(rotation := None), phase := Idle, waiters := []);
        SuccessKeepsTimers(w1, s.waiters, call, now);
      }
    case _ =>
  }

  /** Such a state is reached: a session accepted while a timer's rotation is out, which then fails. */
  lemma OrphanTimer()
    ensures var w := Trace(Boot, [Adopt("a", 300_000), Arm(0), Fire(0, 180_000), Adopt("b", 600_000), Arm(200_000), Fail(201_000)]);
      w.timers == {1, 2} && w.f.timer == Some(2)
  {
  }
}
