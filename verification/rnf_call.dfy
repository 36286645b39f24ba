// DBusRNF::Call (src/rnfcall.hh, src/rnfcall.cc): request, notification and fetching of a result by
// cookie, and abortion in two critical sections, in any interleaving.
module RnfCall {
  import opened Wrappers

  // 0 is not a cookie.
  type Cookie = nat

  datatype CallState =
    | Initialized | WaitForNotification | ReadyToFetch | ResultFetched
    | Aborting | AbortedByListBroker | Failed | AboutToDestroy

  datatype Promise = Unset | Value | Error

  // What happens inside of request(): a cookie is returned, with or without an exception while handing
  // it over to the cookie manager; or an answer, with or without an exception in the fast path
  // function; or an exception instead of any answer
  datatype Answer = Slow(cookie: Cookie) | Unmanaged(cookie: Cookie) | Fast | FastThrows | Throws

  datatype Event =
    | Request(answer: Answer)
    | Notify(cookie: Cookie, failed: bool)
    | Fetch(ok: bool)
    | AbortBegin                  // up to the unlocking, in state with a cookie
    | AbortEnd(ok: bool)          // the call made without the lock, and the rest
    | GetResult
    | Destroy

  // The members of a call, followed by what has happened so far: how often it has been tried to set
  // the promise; how many aborts are between their critical sections; the cookie returned by the
  // request; and whether or not any abort has taken the cookie away
  datatype Protocol = Protocol(
    state: CallState, cookie: Cookie, cleared: Cookie, abortedAfterDone: bool, promise: Promise, taken: bool,
    attempts: nat, aborts: nat, requested: Cookie, cookieTaken: bool)
  {
    function Clear(): Protocol {
      this.(cleared := cookie, cookie := 0)
    }

    function Set(value: Promise): Protocol {
      this.(promise := if promise == Unset then value else promise, attempts := attempts + 1)
    }
  }

  const NEW_CALL := Protocol(Initialized, 0, 0, false, Unset, false, 0, 0, 0, false)

  function AfterRequest(p: Protocol, answer: Answer): Protocol {
    if p.state != Initialized then p
    else match answer
      case Slow(cookie) => p.(cookie := cookie, requested := cookie, state := WaitForNotification)
      case Unmanaged(cookie) => p.(cookie := cookie, requested := cookie).Set(Error).(state := Failed)
      case Fast => p.Set(Value).(state := ResultFetched)
      case FastThrows => p.Set(Value).Set(Error).(state := Failed)
      case Throws => p.Set(Error).(state := Failed)
  }

  function AfterNotify(p: Protocol, cookie: Cookie, failed: bool): Protocol {
    if cookie == 0 || (cookie != p.cookie && cookie != p.cleared) then p
    else if p.state == WaitForNotification || p.state == Aborting then
      p.(state := if failed then AbortedByListBroker else ReadyToFetch)
    else p
  }

  function AfterFetch(p: Protocol, ok: bool): Protocol {
    if p.state != ReadyToFetch then p
    else p.Set(if ok then Value else Error).Clear().(state := if ok then ResultFetched else Failed)
  }

  function AfterAbortBegin(p: Protocol): Protocol {
    match p.state
    case Initialized | WaitForNotification | ReadyToFetch =>
      if p.cookie == 0 then p.Clear().(state := AbortedByListBroker)
      else p.Clear().(aborts := p.aborts + 1, cookieTaken := true)
    case ResultFetched | Failed => p.(abortedAfterDone := true)
    case Aborting | AbortedByListBroker | AboutToDestroy => p
  }

  function AfterAbortEnd(p: Protocol, ok: bool): Protocol {
    if p.aborts == 0 then p
    else p.(aborts := p.aborts - 1, state := if ok then Aborting else p.state)
  }

  predicate HasResult(p: Protocol) {
    (p.state == ResultFetched || p.state == Failed) && !p.abortedAfterDone
  }

  function AfterGetResult(p: Protocol): Protocol {
    if !HasResult(p) || p.taken then p
    else p.(taken := true, state := if p.promise == Value then p.state else Failed)
  }

  function Apply(p: Protocol, e: Event): Protocol {
    match e
    case Request(answer) => AfterRequest(p, answer)
    case Notify(cookie, failed) => AfterNotify(p, cookie, failed)
    case Fetch(ok) => AfterFetch(p, ok)
    case AbortBegin => AfterAbortBegin(p)
    case AbortEnd(ok) => AfterAbortEnd(p, ok)
    case GetResult => AfterGetResult(p)
    case Destroy => if p.aborts == 0 then p.(state := AboutToDestroy) else p
  }

  // A cookie, if returned, is not 0.
  predicate Possible(e: Event) {
    e.Request? && (e.answer.Slow? || e.answer.Unmanaged?) ==> e.answer.cookie != 0
  }

  predicate PossibleRun(events: seq<Event>) {
    forall i :: 0 <= i < |events| ==> Possible(events[i])
  }

  function Run(p: Protocol, events: seq<Event>): Protocol {
    if events == [] then p else Apply(Run(p, events[..|events| - 1]), events[|events| - 1])
  }

  // ---------------------------------------------------------------- what holds after every run

  ghost predicate Sound(p: Protocol) {
    && (p.aborts > 0 ==> p.cookieTaken && p.state != Initialized && p.state != AboutToDestroy)
    && (p.cookieTaken ==> p.cookie == 0 && p.requested != 0)
    && (p.cookie == 0 || p.cookie == p.requested) && (p.cleared == 0 || p.cleared == p.requested)
    && (p.taken ==> p.promise != Unset)
    && (p.promise == Unset <==> p.attempts == 0)
    && match p.state
       case Initialized =>
         p.cookie == p.cleared == p.requested == 0 && p.promise == Unset && !p.cookieTaken
       case WaitForNotification =>
         p.requested != 0 && p.promise == Unset
         && if p.cookieTaken then p.cleared == p.requested else p.cookie == p.requested && p.cleared == 0
       case ReadyToFetch =>
         p.requested != 0 && p.promise == Unset && (!p.cookieTaken ==> p.cookie == p.requested)
       case ResultFetched => p.promise == Value && p.attempts == 1 && SetOnce(p)
       case Failed => p.promise != Unset && p.attempts == (if p.promise == Error then 1 else 2) && SetOnce(p)
       case Aborting => p.cookieTaken && SetOnce(p)
       case AbortedByListBroker => SetOnce(p) && (p.promise == Unset || p.cookieTaken)
       case AboutToDestroy => true
  }

  // Once the promise has been set, no notification can get an aborted call to the point where it would
  // be set again.
  ghost predicate SetOnce(p: Protocol) {
    && p.attempts <= 2
    && (p.promise != Unset && (p.aborts > 0 || p.state == Aborting) ==>
          p.cookie == 0 && p.cleared == 0 && p.attempts == 1)
  }

  lemma StepKeepsSound(p: Protocol, e: Event)
    requires Sound(p) && Possible(e)
    ensures Sound(Apply(p, e))
    ensures p.attempts <= Apply(p, e).attempts
    ensures p.promise != Unset ==> Apply(p, e).promise == p.promise && Apply(p, e).attempts == p.attempts
  {
    hide Sound, AfterRequest, AfterNotify, AfterFetch, AfterAbortBegin, AfterAbortEnd;
    match e {
      case Request(answer) => RequestKeepsSound(p, answer);
      case Notify(cookie, failed) => NotifyKeepsSound(p, cookie, failed);
      case Fetch(ok) => FetchKeepsSound(p, ok);
      case AbortBegin => AbortKeepsSound(p, true);
      case AbortEnd(ok) => AbortKeepsSound(p, ok);
      case GetResult => RestKeepsSound(p);
      case Destroy => RestKeepsSound(p);
    }
  }

  lemma RequestKeepsSound(p: Protocol, answer: Answer)
    requires Sound(p) && Possible(Request(answer))
    ensures Sound(AfterRequest(p, answer)) && p.attempts <= AfterRequest(p, answer).attempts
    ensures p.promise != Unset ==> AfterRequest(p, answer) == p
  {
  }

  lemma NotifyKeepsSound(p: Protocol, cookie: Cookie, failed: bool)
    requires Sound(p)
    ensures Sound(AfterNotify(p, cookie, failed))
    ensures AfterNotify(p, cookie, failed).promise == p.promise && AfterNotify(p, cookie, failed).attempts == p.attempts
  {
  }

  lemma FetchKeepsSound(p: Protocol, ok: bool)
    requires Sound(p)
    ensures Sound(AfterFetch(p, ok)) && p.attempts <= AfterFetch(p, ok).attempts
    ensures p.promise != Unset ==> AfterFetch(p, ok) == p
  {
  }

  lemma AbortKeepsSound(p: Protocol, ok: bool)
    requires Sound(p)
    ensures Sound(AfterAbortBegin(p)) && Sound(AfterAbortEnd(p, ok))
    ensures AfterAbortBegin(p).promise == p.promise && AfterAbortBegin(p).attempts == p.attempts
    ensures AfterAbortEnd(p, ok).promise == p.promise && AfterAbortEnd(p, ok).attempts == p.attempts
  {
  }

  lemma RestKeepsSound(p: Protocol)
    requires Sound(p)
    ensures Sound(Apply(p, GetResult)) && Sound(Apply(p, Destroy))
    ensures Apply(p, GetResult).promise == p.promise && Apply(p, GetResult).attempts == p.attempts
    ensures Apply(p, Destroy).promise == p.promise && Apply(p, Destroy).attempts == p.attempts
  {
  }

  lemma {:induction false} RunIsSound(p: Protocol, events: seq<Event>)
    requires Sound(p) && PossibleRun(events)
    ensures Sound(Run(p, events))
  {
    if events != [] {
      RunIsSound(p, events[..|events| - 1]);
      StepKeepsSound(Run(p, events[..|events| - 1]), events[|events| - 1]);
    }
  }

  // ---------------------------------------------------------------- consequences for all runs

  // The event by which a new call stops being a new call
  function Opening(events: seq<Event>): Option<Event> {
    if events == [] then None
    else
      var opening := Opening(events[..|events| - 1]);
      var last := events[|events| - 1];
      if opening.Some? then opening
      else if Opens(last) then Some(last) else None
  }

  lemma {:induction false} Opened(events: seq<Event>)
    requires PossibleRun(events)
    ensures Sound(Run(NEW_CALL, events))
    ensures Run(NEW_CALL, events).state == Initialized <==> Opening(events) == None
    ensures Run(NEW_CALL, events).attempts >= 2 <==> Opening(events) == Some(Request(FastThrows))
    ensures Opening(events) == Some(Request(Fast)) ==>
              && Run(NEW_CALL, events).aborts == 0
              && (Run(NEW_CALL, events).state == ResultFetched || Run(NEW_CALL, events).state == AboutToDestroy)
  {
    hide Sound, Apply;
    if events != [] {
      var before := events[..|events| - 1];
      Opened(before);
      StepKeepsSound(Run(NEW_CALL, before), events[|events| - 1]);
      OpenedStep(Run(NEW_CALL, before), events[|events| - 1]);
    } else {
      UnnotifiedNew();
    }
  }

  predicate Opens(e: Event) {
    e.Request? || e.AbortBegin? || e.Destroy?
  }

  lemma OpenedStep(p: Protocol, e: Event)
    requires Sound(p)
    ensures p.state != Initialized ==>
              Apply(p, e).state != Initialized && (Apply(p, e).attempts >= 2 <==> p.attempts >= 2)
    ensures p.state == Initialized && !Opens(e) ==> Apply(p, e) == p
    ensures p.state == Initialized && Opens(e) ==>
              && Apply(p, e).state != Initialized
              && (Apply(p, e).attempts >= 2 <==> e == Request(FastThrows))
              && (e == Request(Fast) ==> Apply(p, e).aborts == 0 && Apply(p, e).state == ResultFetched)
    ensures p.aborts == 0 && (p.state == ResultFetched || p.state == AboutToDestroy) ==>
              Apply(p, e).aborts == 0 && (Apply(p, e).state == ResultFetched || Apply(p, e).state == AboutToDestroy)
  {
  }

  // In whichever order things happen, the promise is set at most once, unless the function called for
  // a fast path answer throws.
  lemma PromiseSetOnceIff(events: seq<Event>)
    requires PossibleRun(events)
    ensures Run(NEW_CALL, events).attempts <= 1 <==> Opening(events) != Some(Request(FastThrows))
  {
    Opened(events);
  }

  // A call answered right away is never to be fetched, nor waited for.
  lemma FastPathStays(events: seq<Event>)
    requires PossibleRun(events) && Opening(events) == Some(Request(Fast))
    ensures var p := Run(NEW_CALL, events);
            p.state == ResultFetched || p.state == AboutToDestroy
  {
    Opened(events);
  }

  // get_result() finds a promise which has been set, so it doesn't wait; if the call has been
  // successful, then there is a value.
  lemma ResultIsThere(events: seq<Event>)
    requires PossibleRun(events)
    ensures var p := Run(NEW_CALL, events);
            && (HasResult(p) ==> p.promise != Unset)
            && (p.state == ResultFetched ==> p.promise == Value)
            && (p.state == Failed && p.promise == Value ==> Opening(events) == Some(Request(FastThrows)))
  {
    Opened(events);
  }

  // A call which is waiting, even one whose abortion has begun, is woken up by the notification for
  // the cookie returned by its request, and by no other.
  lemma NoLostWakeup(events: seq<Event>, cookie: Cookie, failed: bool)
    requires PossibleRun(events) && Run(NEW_CALL, events).state == WaitForNotification
    ensures var p := Run(NEW_CALL, events); var after := Apply(p, Notify(cookie, failed));
            if cookie == p.requested then after.state == (if failed then AbortedByListBroker else ReadyToFetch)
            else after == p
  {
    Opened(events);
  }

  // The result is fetched by the cookie returned by the request if and only if no abort has begun;
  // otherwise, it is fetched by cookie 0.
  lemma FetchedByCookieIff(events: seq<Event>)
    requires PossibleRun(events) && Run(NEW_CALL, events).state == ReadyToFetch
    ensures var p := Run(NEW_CALL, events);
            && (p.cookie == p.requested <==> !p.cookieTaken)
            && (p.cookieTaken ==> p.cookie == 0)
  {
    Opened(events);
  }

  lemma FetchByNoCookie()
    ensures var events := [Request(Slow(1)), AbortBegin, AbortEnd(true), Notify(1, false)];
            var p := Run(NEW_CALL, events);
            PossibleRun(events) && p.state == ReadyToFetch && p.requested == 1 && p.cookie == 0
  {
    RunOfFour(NEW_CALL, Request(Slow(1)), AbortBegin, AbortEnd(true), Notify(1, false));
  }

  lemma RunOfFour(p: Protocol, e0: Event, e1: Event, e2: Event, e3: Event)
    ensures Run(p, [e0, e1, e2, e3]) == Apply(Apply(Apply(Apply(p, e0), e1), e2), e3)
  {
    hide Apply;
    assert [e0, e1, e2, e3][..3] == [e0, e1, e2] && [e0, e1, e2][..2] == [e0, e1] && [e0, e1][..1] == [e0];
    assert [e0][..0] == [];
    assert Run(p, [e0]) == Apply(p, e0);
    assert Run(p, [e0, e1]) == Apply(Run(p, [e0]), e1);
    assert Run(p, [e0, e1, e2]) == Apply(Run(p, [e0, e1]), e2);
  }

  // ---------------------------------------------------------------- the end of an abortion

  // A call being aborted is ended by the notification for its cookie if and only if the cookie has not
  // been forgotten, and by no other notification.
  lemma AbortingEndsIffRemembered(events: seq<Event>, cookie: Cookie, failed: bool)
    requires PossibleRun(events) && Run(NEW_CALL, events).state == Aborting
    ensures var p := Run(NEW_CALL, events);
            Apply(p, Notify(cookie, failed)).state != Aborting <==> cookie == p.requested && p.cleared != 0
  {
    Opened(events);
  }

  predicate IsNotified(events: seq<Event>, cookie: Cookie) {
    exists i :: 0 <= i < |events| && events[i].Notify? && events[i].cookie == cookie
  }

  // Each cookie is notified at most once.
  predicate NotifiedOnce(events: seq<Event>) {
    forall i, j :: 0 <= i < j < |events| && events[i].Notify? && events[j].Notify? ==>
      events[i].cookie != events[j].cookie
  }

  // The number of aborts begun before the first one has come to its end with success
  function AbortsBegun(events: seq<Event>): nat {
    if events == [] then 0
    else
      var front, last := events[..|events| - 1], events[|events| - 1];
      AbortsBegun(front) + if last.AbortBegin? && !AbortDone(front) then 1 else 0
  }

  predicate AbortDone(events: seq<Event>) {
    if events == [] then false
    else
      var front, last := events[..|events| - 1], events[|events| - 1];
      AbortDone(front) || (last == AbortEnd(true) && AbortsBegun(front) > 0)
  }

  // What the aborts begun so far tell about a call which has not been notified
  ghost predicate Unnotified(p: Protocol, begun: nat, done: bool) {
    && p.aborts <= 1 && p.state != ReadyToFetch && (done ==> begun > 0)
    && match p.state
       case Initialized => begun == 0
       case WaitForNotification => begun == (if p.cookieTaken then 1 else 0) && (done ==> p.aborts == 0)
       case Aborting => done && (p.cleared != 0 <==> begun == 1)
       case AbortedByListBroker => p.aborts > 0 ==> !done && begun >= 2 && p.cleared == 0
       case _ => p.aborts == 0
  }

  lemma UnnotifiedStep(p: Protocol, e: Event, begun: nat, done: bool)
    requires Sound(p) && Possible(e) && Unnotified(p, begun, done)
    requires e.Notify? ==> e.cookie != p.requested || p.requested == 0
    ensures Unnotified(Apply(p, e), begun + (if e.AbortBegin? && !done then 1 else 0),
                       done || (e == AbortEnd(true) && begun > 0))
  {
  }

  lemma {:induction false} UnnotifiedRun(events: seq<Event>)
    requires PossibleRun(events)
    ensures var p := Run(NEW_CALL, events);
            && Sound(p)
            && (p.requested == 0 || !IsNotified(events, p.requested) ==>
                  Unnotified(p, AbortsBegun(events), AbortDone(events)))
  {
    hide Apply, Sound, Unnotified;
    if events == [] {
      UnnotifiedNew();
    } else {
      var front, last := events[..|events| - 1], events[|events| - 1];
      var p := Run(NEW_CALL, front);
      UnnotifiedRun(front);
      assert events == front + [last];
      StepKeepsSound(p, last);
      RequestedStep(p, last);
      var after := Apply(p, last);
      if after.requested == 0 || !IsNotified(events, after.requested) {
        NotifiedInFront(front, last, p.requested);
        UnnotifiedStep(p, last, AbortsBegun(front), AbortDone(front));
      }
    }
  }

  lemma NotifiedInFront(front: seq<Event>, last: Event, cookie: Cookie)
    ensures IsNotified(front + [last], cookie) <==> IsNotified(front, cookie) || (last.Notify? && last.cookie == cookie)
  {
    var events := front + [last];
    assert events[|front|] == last;
    if i :| 0 <= i < |front| && front[i].Notify? && front[i].cookie == cookie {
      assert events[i] == front[i];
    }
  }

  lemma UnnotifiedNew()
    ensures Sound(NEW_CALL) && Unnotified(NEW_CALL, 0, false)
  {
  }

  lemma RequestedStep(p: Protocol, e: Event)
    requires Sound(p)
    ensures p.requested != 0 ==> Apply(p, e).requested == p.requested
  {
  }

  lemma RunExtended(p: Protocol, events: seq<Event>, e: Event)
    ensures Run(p, events + [e]) == Apply(Run(p, events), e)
  {
    assert (events + [e])[..|events|] == events;
  }

  lemma {:induction false} RunConcat(p: Protocol, events: seq<Event>, more: seq<Event>)
    ensures Run(p, events + more) == Run(Run(p, events), more)
  {
    hide Apply;
    if more == [] {
      assert events + more == events;
    } else {
      var front, last := more[..|more| - 1], more[|more| - 1];
      RunConcat(p, events, front);
      assert (events + more)[..|events + more| - 1] == events + front;
    }
  }

  lemma StaysAborting(p: Protocol, e: Event)
    requires Sound(p) && p.state == Aborting && !e.Destroy?
    requires p.cleared == 0 || !(e.Notify? && e.cookie == p.requested)
    ensures Apply(p, e).state == Aborting && Apply(p, e).cleared == p.cleared && Apply(p, e).requested == p.requested
  {
  }

  // Without being destroyed, and without the notification for its cookie unless that cookie has been
  // forgotten, a call being aborted stays in that state.
  lemma {:induction false} StuckInAborting(p: Protocol, more: seq<Event>)
    requires Sound(p) && p.state == Aborting && PossibleRun(more) && Destroy !in more
    requires p.cleared == 0 || !IsNotified(more, p.requested)
    ensures var after := Run(p, more);
            Sound(after) && after.state == Aborting && after.cleared == p.cleared && after.requested == p.requested
  {
    hide Apply, Sound;
    if more != [] {
      var front, last := more[..|more| - 1], more[|more| - 1];
      NotifiedInFront(front, last, p.requested);
      assert more == front + [last];
      StuckInAborting(p, front);
      StepKeepsSound(Run(p, front), last);
      StaysAborting(Run(p, front), last);
    }
  }

  // There is a way out of the abortion: notifying each cookie at most once, and without destroying it,
  // the call may get to some other state.
  ghost predicate HasWayOut(events: seq<Event>) {
    exists more :: && PossibleRun(more) && NotifiedOnce(events + more) && Destroy !in more
                   && Run(NEW_CALL, events + more).state != Aborting
  }

  // An abortion comes to its end if and only if the call has not been notified before, and there has
  // been a single abort until then.
  lemma AbortingEndsIff(events: seq<Event>)
    requires PossibleRun(events) && NotifiedOnce(events) && Run(NEW_CALL, events).state == Aborting
    ensures HasWayOut(events) <==> !IsNotified(events, Run(NEW_CALL, events).requested) && AbortsBegun(events) == 1
  {
    var p := Run(NEW_CALL, events);
    UnnotifiedRun(events);
    if !IsNotified(events, p.requested) && AbortsBegun(events) == 1 {
      var more := [Notify(p.requested, true)];
      RunExtended(NEW_CALL, events, more[0]);
      assert NotifiedOnce(events + more);
      assert HasWayOut(events);
    }
    if HasWayOut(events) {
      var more :| && PossibleRun(more) && NotifiedOnce(events + more) && Destroy !in more
                  && Run(NEW_CALL, events + more).state != Aborting;
      RunConcat(NEW_CALL, events, more);
      if p.cleared == 0 || !IsNotified(more, p.requested) {
        StuckInAborting(p, more);
      }
      NotNotifiedTwice(events, more, p.requested);
    }
  }

  lemma NotNotifiedTwice(events: seq<Event>, more: seq<Event>, cookie: Cookie)
    requires NotifiedOnce(events + more) && IsNotified(more, cookie)
    ensures !IsNotified(events, cookie)
  {
    var j :| 0 <= j < |more| && more[j].Notify? && more[j].cookie == cookie;
    assert (events + more)[|events| + j] == more[j];
    forall i | 0 <= i < |events| && events[i].Notify? ensures events[i].cookie != cookie {
      assert (events + more)[i] == events[i];
    }
  }

  // Two overlapping aborts
  lemma OverlappingAborts(failed: bool)
    ensures var p := Run(NEW_CALL, [Request(Slow(1)), AbortBegin, AbortBegin, AbortEnd(true)]);
            p.state == Aborting && p.promise == Unset && Apply(p, Notify(1, failed)).state == Aborting
  {
    RunOfFour(NEW_CALL, Request(Slow(1)), AbortBegin, AbortBegin, AbortEnd(true));
  }

  // A notification which comes in between the two critical sections of a single abort
  lemma NotifiedWhileAborting(failed: bool)
    ensures var events := [Request(Slow(1)), AbortBegin, Notify(1, failed), AbortEnd(true)];
            var p := Run(NEW_CALL, events);
            p.state == Aborting && p.promise == Unset && IsNotified(events, p.requested)
  {
    var events := [Request(Slow(1)), AbortBegin, Notify(1, failed), AbortEnd(true)];
    RunOfFour(NEW_CALL, Request(Slow(1)), AbortBegin, Notify(1, failed), AbortEnd(true));
    assert events[2] == Notify(1, failed);
  }

  // The same, with the result fetched in between as well: there is a value, but it cannot be retrieved.
  lemma FetchedWhileAborting(failed: bool)
    ensures var p := Run(NEW_CALL, [Request(Slow(1)), AbortBegin, Notify(1, false), Fetch(true)] + [AbortEnd(true)]);
            p.state == Aborting && p.promise == Value && !HasResult(p) && Apply(p, Notify(1, failed)).state == Aborting
  {
    RunOfFour(NEW_CALL, Request(Slow(1)), AbortBegin, Notify(1, false), Fetch(true));
    RunExtended(NEW_CALL, [Request(Slow(1)), AbortBegin, Notify(1, false), Fetch(true)], AbortEnd(true));
  }

  // ---------------------------------------------------------------- aborting a finished call

  datatype AbortResult = Done(ok: bool) | Unlocked(cookie: Cookie)

  datatype Outcome = Got(promise: Promise) | BadStateError | AbortedError | NoResultError

  // What get_result() answers
  function ResultOf(p: Protocol): Outcome {
    match p.state
    case Initialized | WaitForNotification | ReadyToFetch | AboutToDestroy => BadStateError
    case Aborting | AbortedByListBroker => AbortedError
    case ResultFetched | Failed =>
      if p.abortedAfterDone then AbortedError else if p.taken then NoResultError else Got(p.promise)
  }

  // What abort_request() answers, or that the list broker is called
  function AbortAnswer(p: Protocol): AbortResult {
    match p.state
    case Initialized | WaitForNotification | ReadyToFetch => if p.cookie == 0 then Done(true) else Unlocked(p.cookie)
    case ResultFetched | Failed => Done(!p.abortedAfterDone)
    case Aborting | AbortedByListBroker => Done(false)
    case AboutToDestroy => Done(true)
  }

  predicate IsFinished(p: Protocol) {
    p.state == ResultFetched || p.state == Failed
  }

  // A finished call has been aborted: whatever happens next, its state is one of these.
  ghost predicate TakenAway(p: Protocol, destroyed: bool) {
    && Sound(p) && p.abortedAfterDone && p.promise != Unset
    && (IsFinished(p) || p.state == Aborting || (p.state == AboutToDestroy && destroyed))
  }

  lemma TakenAwayStep(p: Protocol, e: Event, destroyed: bool)
    requires TakenAway(p, destroyed) && Possible(e)
    ensures TakenAway(Apply(p, e), destroyed || e == Destroy)
  {
    StepKeepsSound(p, e);
  }

  lemma {:induction false} StaysTakenAway(p: Protocol, more: seq<Event>)
    requires TakenAway(p, false) && PossibleRun(more)
    ensures TakenAway(Run(p, more), Destroy in more)
  {
    hide Apply, TakenAway;
    if more != [] {
      var front, last := more[..|more| - 1], more[|more| - 1];
      assert more == front + [last];
      StaysTakenAway(p, front);
      TakenAwayStep(Run(p, front), last, Destroy in front);
    }
  }

  // After a finished call has been aborted, there is no result to be had anymore, whatever happens next, and no
  // further abort succeeds, unless the call is destroyed.
  lemma AbortTakesResultAway(front: seq<Event>, more: seq<Event>)
    requires PossibleRun(front) && PossibleRun(more) && Run(NEW_CALL, front).state in {ResultFetched, Failed}
    ensures var p := Run(NEW_CALL, front + [AbortBegin] + more);
            && !HasResult(p) && !ResultOf(p).Got?
            && (p.state != AboutToDestroy ==> ResultOf(p) == AbortedError && AbortAnswer(p) == Done(false))
            && (Destroy !in more ==> p.state != AboutToDestroy)
  {
    hide Sound;
    var p := Run(NEW_CALL, front);
    Opened(front);
    RunExtended(NEW_CALL, front, AbortBegin);
    RunConcat(NEW_CALL, front + [AbortBegin], more);
    FinishedIsTakenAway(p);
    StaysTakenAway(Apply(p, AbortBegin), more);
  }

  lemma FinishedIsTakenAway(p: Protocol)
    requires Sound(p) && IsFinished(p)
    ensures TakenAway(Apply(p, AbortBegin), false)
  {
    StepKeepsSound(p, AbortBegin);
  }

  // An event by which a finished call loses its result: an abort begins, or one begun before the call was finished
  // comes to its end, or the call is destroyed (which has to wait for any abort underway).
  predicate Spoils(p: Protocol, e: Event) {
    e == AbortBegin || (e == AbortEnd(true) && p.aborts > 0) || (e == Destroy && p.aborts == 0)
  }

  // The result has been lost.
  ghost predicate Lost(p: Protocol) {
    p.promise != Unset && !HasResult(p) && (p.abortedAfterDone || p.state == Aborting || p.state == AboutToDestroy)
  }

  lemma ResultStep(p: Protocol, e: Event)
    requires Sound(p) && Possible(e) && (HasResult(p) || Lost(p))
    ensures Sound(Apply(p, e)) && Apply(p, e).promise == p.promise != Unset
    ensures if HasResult(p) && !Spoils(p, e) then HasResult(Apply(p, e)) else Lost(Apply(p, e))
  {
    StepKeepsSound(p, e);
  }

  // Nothing has spoilt the result since.
  ghost predicate Unspoilt(front: seq<Event>, more: seq<Event>) {
    forall i :: 0 <= i < |more| ==> !Spoils(Run(NEW_CALL, front + more[..i]), more[i])
  }

  lemma UnspoiltExtended(front: seq<Event>, more: seq<Event>, e: Event)
    ensures Unspoilt(front, more + [e]) <==> Unspoilt(front, more) && !Spoils(Run(NEW_CALL, front + more), e)
  {
    hide Spoils, Run;
    var all := more + [e];
    assert all[..|more|] == more && all[|more|] == e;
    forall i | 0 <= i < |more| ensures all[..i] == more[..i] && all[i] == more[i] {
    }
  }

  lemma {:induction false} ResultStays(front: seq<Event>, more: seq<Event>)
    requires PossibleRun(more) && Sound(Run(NEW_CALL, front)) && HasResult(Run(NEW_CALL, front))
    ensures var p, q := Run(NEW_CALL, front), Run(NEW_CALL, front + more);
            && Sound(q) && q.promise == p.promise
            && if Unspoilt(front, more) then HasResult(q) else Lost(q)
  {
    hide Apply, Sound, Spoils, HasResult, Unspoilt;
    if more == [] {
      assert front + more == front;
      NothingSpoilt(front);
    } else {
      var less, last := more[..|more| - 1], more[|more| - 1];
      assert more == less + [last];
      ResultStays(front, less);
      assert front + more == (front + less) + [last];
      RunExtended(NEW_CALL, front + less, last);
      UnspoiltExtended(front, less, last);
      ResultStep(Run(NEW_CALL, front + less), last);
    }
  }

  lemma NothingSpoilt(front: seq<Event>)
    ensures Unspoilt(front, [])
  {
  }

  lemma {:induction false} FlaggedWhenDone(events: seq<Event>)
    requires PossibleRun(events)
    ensures var p := Run(NEW_CALL, events); Sound(p) && (p.abortedAfterDone ==> p.promise != Unset)
  {
    hide Sound, Apply;
    Opened(events);
    if events != [] {
      var front, last := events[..|events| - 1], events[|events| - 1];
      FlaggedWhenDone(front);
      FlagStep(Run(NEW_CALL, front), last);
    }
  }

  lemma FlagStep(p: Protocol, e: Event)
    requires Sound(p) && Possible(e) && (p.abortedAfterDone ==> p.promise != Unset)
    ensures Apply(p, e).abortedAfterDone ==> Apply(p, e).promise != Unset
    ensures !IsFinished(p) && IsFinished(Apply(p, e)) ==> HasResult(Apply(p, e))
  {
  }

  // From the event on by which it has been finished, a call has its result if and only if nothing has spoilt it;
  // and then it is the result it has been finished with.
  lemma ResultStaysIff(front: seq<Event>, last: Event, more: seq<Event>)
    requires PossibleRun(front) && Possible(last) && PossibleRun(more) && !IsFinished(Run(NEW_CALL, front))
    requires IsFinished(Run(NEW_CALL, front + [last]))
    ensures var p, q := Run(NEW_CALL, front + [last]), Run(NEW_CALL, front + [last] + more);
            && (HasResult(q) <==> Unspoilt(front + [last], more))
            && (HasResult(q) ==> ResultOf(q) == (if q.taken then NoResultError else Got(p.promise)))
  {
    hide Apply, Sound, Spoils, Unspoilt;
    FlaggedWhenDone(front);
    RunExtended(NEW_CALL, front, last);
    StepKeepsSound(Run(NEW_CALL, front), last);
    FlagStep(Run(NEW_CALL, front), last);
    ResultStays(front + [last], more);
  }

  // Without any abort underway when it is finished, only beginning an abort or destroying the call takes its result
  // away.
  lemma {:induction false} ResultStaysUntilAbort(front: seq<Event>, last: Event, more: seq<Event>)
    requires PossibleRun(front) && Possible(last) && PossibleRun(more) && !IsFinished(Run(NEW_CALL, front))
    requires IsFinished(Run(NEW_CALL, front + [last])) && Run(NEW_CALL, front + [last]).aborts == 0
    ensures HasResult(Run(NEW_CALL, front + [last] + more)) <==> AbortBegin !in more && Destroy !in more
  {
    hide Apply, Sound, Spoils, Unspoilt, HasResult;
    var all := front + [last];
    ResultStaysIff(front, last, more);
    NoneUnderway(all, more);
  }

  lemma {:induction false} NoneUnderway(front: seq<Event>, more: seq<Event>)
    requires Run(NEW_CALL, front).aborts == 0
    ensures Unspoilt(front, more) <==> AbortBegin !in more && Destroy !in more
    ensures AbortBegin !in more ==> Run(NEW_CALL, front + more).aborts == 0
  {
    hide Apply, Unspoilt;
    if more == [] {
      assert front + more == front;
      NothingSpoilt(front);
    } else {
      var less, e := more[..|more| - 1], more[|more| - 1];
      assert more == less + [e];
      NoneUnderway(front, less);
      assert front + more == (front + less) + [e];
      RunExtended(NEW_CALL, front + less, e);
      UnspoiltExtended(front, less, e);
      if AbortBegin !in less {
        OnlyAbortBegins(Run(NEW_CALL, front + less), e);
      }
    }
  }

  lemma OnlyAbortBegins(p: Protocol, e: Event)
    requires p.aborts == 0
    ensures e != AbortBegin ==> Apply(p, e).aborts == 0
  {
  }

  // ---------------------------------------------------------------- the class

  class Call {
    var state: CallState
    var cookie: Cookie
    var cleared: Cookie
    var abortedAfterDone: bool
    var promise: Promise
    var taken: bool
    ghost var attempts: nat
    ghost var aborts: nat
    ghost var requested: Cookie
    ghost var cookieTaken: bool

    ghost function View(): Protocol
      reads this
    {
      Protocol(state, cookie, cleared, abortedAfterDone, promise, taken, attempts, aborts, requested, cookieTaken)
    }

    ghost predicate Valid()
      reads this
    {
      Sound(View())
    }

    constructor ()
      ensures Valid() && View() == NEW_CALL
    {
      state := Initialized;
      cookie, cleared := 0, 0;
      abortedAfterDone := false;
      promise, taken := Unset, false;
      attempts, aborts, requested, cookieTaken := 0, 0, 0, false;
    }

    method SetPromise(value: Promise)
      modifies this`promise, this`attempts
      ensures View() == old(View()).Set(value)
    {
      if promise == Unset {
        promise := value;
      }
      attempts := attempts + 1;
    }

    method ClearCookie() returns (c: Cookie)
      modifies this`cookie, this`cleared
      ensures View() == old(View()).Clear() && c == old(cookie)
    {
      cleared := cookie;
      cookie := 0;
      return cleared;
    }

    // request(): None stands for the exception of type BadStateError
    method Request(answer: Answer) returns (r: Option<CallState>)
      requires Valid() && Possible(Event.Request(answer))
      modifies this
      ensures Valid() && View() == AfterRequest(old(View()), answer)
      ensures r == if old(state) == Initialized then Some(state) else None
      ensures old(state) != Initialized ==> View() == old(View())
      ensures old(state) == Initialized ==>
                match answer
                case Slow(c) => state == WaitForNotification && cookie == c && promise == Unset
                case Unmanaged(c) => state == Failed && cookie == c && promise == Error
                case Fast => state == ResultFetched && cookie == 0 && promise == Value
                case FastThrows => state == Failed && cookie == 0 && promise == Value
                case Throws => state == Failed && cookie == 0 && promise == Error
    {
      ghost var before := View();
      if state != Initialized {
        return None;
      }
      if answer.Throws? {
        SetPromise(Error);
        state := Failed;
      } else if answer.Slow? || answer.Unmanaged? {
        cookie := answer.cookie;
        requested := answer.cookie;
        if answer.Slow? {
          state := WaitForNotification;
        } else {
          SetPromise(Error);
          state := Failed;
        }
      } else {
        SetPromise(Value);
        assert cookie == 0;
        state := ResultFetched;
        if answer.FastThrows? {
          SetPromise(Error);
          state := Failed;
        }
      }
      StepKeepsSound(before, Event.Request(answer));
      return Some(state);
    }

    method Notification(notified: Cookie, failed: bool)
      requires Valid()
      modifies this`state
      ensures Valid() && View() == AfterNotify(old(View()), notified, failed)
      ensures old(state) == WaitForNotification ==> (state != WaitForNotification <==> notified == requested)
      ensures old(state) == Aborting ==> (state != Aborting <==> notified == requested && cleared != 0)
      ensures old(state) !in {WaitForNotification, Aborting} ==> state == old(state)
      ensures state != old(state) ==> state == if failed then AbortedByListBroker else ReadyToFetch
    {
      ghost var before := View();
      StepKeepsSound(before, Notify(notified, failed));
      if notified == 0 {
        return;
      }
      if notified != cookie && notified != cleared {
        return;
      }
      match state {
        case WaitForNotification | Aborting =>
          state := if failed then AbortedByListBroker else ReadyToFetch;
        case Initialized | ReadyToFetch | ResultFetched | AbortedByListBroker | Failed | AboutToDestroy =>
      }
    }

    // fetch_unlocked(): None stands for the exception of type BadStateError
    method FetchUnlocked(ok: bool) returns (r: Option<bool>)
      requires Valid()
      modifies this
      ensures Valid() && View() == AfterFetch(old(View()), ok)
      ensures old(promise) != Unset ==> promise == old(promise) && attempts == old(attempts)
      ensures old(state) == ReadyToFetch ==>
                && state == (if ok then ResultFetched else Failed) && promise == (if ok then Value else Error)
                && cookie == 0 && cleared == old(cookie)
      ensures old(state) != ReadyToFetch ==> View() == old(View())
      ensures r == Some(true) <==> state == ResultFetched
      ensures r == Some(false) <==> state == Aborting || state == AbortedByListBroker || state == Failed
    {
      ghost var before := View();
      StepKeepsSound(before, Fetch(ok));
      match state {
        case ReadyToFetch =>
        case ResultFetched => return Some(true);
        case Aborting | AbortedByListBroker | Failed => return Some(false);
        case Initialized | WaitForNotification | AboutToDestroy => return None;
      }
      SetPromise(if ok then Value else Error);
      var _ := ClearCookie();
      state := if ok then ResultFetched else Failed;
      return Some(ok);
    }

    // abort_request_internal(), up to the point where the lock is released
    method AbortBegin() returns (r: AbortResult)
      requires Valid()
      modifies this
      ensures Valid() && View() == AfterAbortBegin(old(View()))
      ensures r.Unlocked? <==> aborts == old(aborts) + 1
      ensures r.Unlocked? ==> r.cookie == requested != 0 && state == old(state)
      ensures r == AbortAnswer(old(View()))
      ensures old(state) in {Initialized, WaitForNotification, ReadyToFetch} ==>
                && cookie == 0 && cleared == old(cookie)
                && (old(cookie) == 0 ==> r == Done(true) && state == AbortedByListBroker)
      ensures old(state) in {ResultFetched, Failed} ==> abortedAfterDone && state == old(state)
      ensures r == Done(false) <==>
              || (old(state) in {ResultFetched, Failed} && old(abortedAfterDone))
              || old(state) in {Aborting, AbortedByListBroker}
    {
      ghost var before := View();
      StepKeepsSound(before, Event.AbortBegin);
      match state {
        case Initialized | WaitForNotification | ReadyToFetch =>
        case ResultFetched | Failed =>
          if abortedAfterDone {
            return Done(false);
          }
          abortedAfterDone := true;
          return Done(true);
        case Aborting | AbortedByListBroker => return Done(false);
        case AboutToDestroy => return Done(true);
      }
      var c := ClearCookie();
      if c == 0 {
        state := AbortedByListBroker;
        return Done(true);
      }
      aborts := aborts + 1;
      cookieTaken := true;
      return Unlocked(c);
    }

    // abort_request_internal(), from the point where the list broker is called
    method AbortEnd(ok: bool) returns (r: bool)
      requires Valid() && aborts > 0
      modifies this
      ensures Valid() && View() == AfterAbortEnd(old(View()), ok)
      ensures r == ok && state == (if ok then Aborting else old(state))
      ensures cookie == old(cookie) && cleared == old(cleared) && promise == old(promise)
    {
      ghost var before := View();
      StepKeepsSound(before, Event.AbortEnd(ok));
      aborts := aborts - 1;
      if !ok {
        return false;
      }
      state := Aborting;
      return true;
    }

    // get_result_unlocked()
    method GetResultUnlocked() returns (r: Outcome)
      requires Valid()
      modifies this`taken, this`state
      ensures Valid() && View() == AfterGetResult(old(View()))
      ensures r == ResultOf(old(View()))
      ensures r.Got? <==> old(state) in {ResultFetched, Failed} && !abortedAfterDone && !old(taken)
      ensures state == (if r == Got(Error) then Failed else old(state)) && taken == (old(taken) || r.Got?)
      ensures r.Got? ==> r.promise == promise != Unset
      ensures r == NoResultError <==> old(state) in {ResultFetched, Failed} && !abortedAfterDone && old(taken)
      ensures r == AbortedError <==>
              || old(state) in {Aborting, AbortedByListBroker}
              || (old(state) in {ResultFetched, Failed} && abortedAfterDone)
    {
      ghost var before := View();
      StepKeepsSound(before, GetResult);
      match state {
        case ResultFetched | Failed =>
        case Initialized | WaitForNotification | ReadyToFetch | AboutToDestroy => return BadStateError;
        case Aborting | AbortedByListBroker => return AbortedError;
      }
      if abortedAfterDone {
        return AbortedError;
      }
      if taken {
        return NoResultError;
      }
      assert promise != Unset;
      taken := true;
      if promise == Error {
        state := Failed;
      }
      return Got(promise);
    }
  }
}
