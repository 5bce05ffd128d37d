/** A stage's delivered Azure DevOps credential, refreshed from its broker. Times are
    nanoseconds; none is the zero time. */
module CredentialRefresh {
  import opened Text

  const MINUTE := 60_000_000_000
  const REFRESH_SKEW := 5 * MINUTE

  datatype Kind = PAT | Bearer | UnknownKind

  datatype Credential = Credential(kind: Kind, secret: string, username: string, expiresAt: Option<int>)

  /** What the resolver answered: a credential, an error that is a permanent refusal, or
      any other error. */
  datatype Answer = Delivered(next: Credential) | Refused | Failed

  /** One call of Credential: whether the caller's context had ended before and after the
      refresh, the clock readings in their order, and the resolver's answer. */
  datatype Call = Call(
    endedBefore: bool, dueAt: int, skewAt: int, throttleAt: int, begunAt: int,
    answer: Answer, endedAfter: bool, settledAt: int)

  datatype Event = Ask(call: Call) | Invalidated

  datatype Outcome = Returned(credential: Credential) | Rejected | Ended | Silent

  /** adoRefreshingCredentialSource; registered holds the credentials whose wire forms the
      registrar was given. */
  datatype Source = Source(
    current: Credential, invalid: bool, lastRefresh: Option<int>, terminal: bool,
    registrar: bool, registered: set<Credential>)

  predicate Expired(c: Credential, at: int) {
    c.expiresAt.Some? && at >= c.expiresAt.value
  }

  /** validateDeliveredADOCredential. */
  predicate WellFormed(c: Credential) {
    !c.kind.UnknownKind? && Trim(c.secret) != ""
  }

  predicate Acceptable(s: Source, next: Credential, at: int) {
    WellFormed(next) && next.kind == s.current.kind && next.username == s.current.username && !Expired(next, at)
  }

  predicate Due(s: Source, c: Call) {
    if s.invalid || Expired(s.current, c.dueAt) then true
    else if s.current.expiresAt.None? || c.skewAt + REFRESH_SKEW < s.current.expiresAt.value then false
    else s.lastRefresh.None? || c.throttleAt - s.lastRefresh.value >= MINUTE
  }

  /** The call reaches the resolver. */
  predicate Resolves(s: Source, e: Event) {
    e.Ask? && !e.call.endedBefore && !s.terminal && Due(s, e.call)
  }

  /** The call's answer becomes the current credential. */
  predicate Accepts(s: Source, e: Event) {
    && Resolves(s, e) && !e.call.endedAfter
    && e.call.answer.Delivered? && Acceptable(s, e.call.answer.next, e.call.settledAt)
  }

  /** The call's answer refuses the attempt for good. */
  predicate Terminates(s: Source, e: Event) {
    Resolves(s, e) && !e.call.endedAfter && !e.call.answer.Failed? && !Accepts(s, e)
  }

  function Step(s: Source, e: Event): Source {
    match e
    case Invalidated => s.(invalid := true)
    case Ask(c) =>
      if !Resolves(s, e) then s
      else
        var begun := s.(lastRefresh := Some(c.begunAt));
        if Accepts(s, e) then
          begun.(current := c.answer.next, invalid := false,
                 registered := if s.registrar then s.registered + {c.answer.next} else s.registered)
        else if Terminates(s, e) then begun.(terminal := true)
        else begun
  }

  function OutcomeOf(s: Source, e: Event): Outcome {
    match e
    case Invalidated => Silent
    case Ask(c) =>
      if c.endedBefore then Ended
      else if s.terminal then Rejected
      else if !Due(s, c) then Returned(s.current)
      else if c.endedAfter then Ended
      else if Accepts(s, e) then Returned(c.answer.next)
      else if Terminates(s, e) || s.invalid || Expired(s.current, c.settledAt) then Rejected
      else Returned(s.current)
  }

  /** NewADORefreshingCredentialSource; resolver says whether one was given. */
  function Start(initial: Credential, resolver: bool, registrar: bool): Option<Source> {
    if !WellFormed(initial) || !resolver then None
    else Some(Source(initial, false, None, false, registrar, if registrar then {initial} else {}))
  }

  // ---------------------------------------------------------------- the object

  class RefreshingSource {
    var current: Credential
    var invalid: bool
    var lastRefresh: Option<int>
    var terminal: bool
    const registrar: bool
    var registered: set<Credential>

    constructor (initial: Credential, registrar: bool)
      ensures View() == Source(initial, false, None, false, registrar, if registrar then {initial} else {})
    {
      this.current := initial;
      this.invalid := false;
      this.lastRefresh := None;
      this.terminal := false;
      this.registrar := registrar;
      this.registered := if registrar then {initial} else {};
    }

    ghost function View(): Source
      reads this
    {
      Source(current, invalid, lastRefresh, terminal, registrar, registered)
    }

    method Register(c: Credential)
      modifies this`registered
      ensures registered == if registrar then old(registered) + {c} else old(registered)
    {
      if registrar {
        registered := registered + {c};
      }
    }

    method RefreshDue(call: Call) returns (due: bool)
      ensures due == Due(View(), call)
    {
      if invalid || Expired(current, call.dueAt) {
        return true;
      }
      if current.expiresAt.None? || call.skewAt + REFRESH_SKEW < current.expiresAt.value {
        return false;
      }
      return lastRefresh.None? || call.throttleAt - lastRefresh.value >= MINUTE;
    }

    method GetCredential(call: Call) returns (outcome: Outcome)
      modifies this
      ensures View() == Step(old(View()), Ask(call))
      ensures outcome == OutcomeOf(old(View()), Ask(call))
    {
      if call.endedBefore {
        return Ended;
      }
      if terminal {
        return Rejected;
      }
      var due := RefreshDue(call);
      if !due {
        return Returned(current);
      }
      lastRefresh := Some(call.begunAt);
      if call.endedAfter {
        return Ended;
      }
      var failed, permanent := !call.answer.Delivered?, call.answer.Refused?;
      if call.answer.Delivered? {
        var next := call.answer.next;
        failed := !(WellFormed(next) && next.kind == current.kind && next.username == current.username
                    && !Expired(next, call.settledAt));
        permanent := failed;
      }
      if failed {
        if permanent {
          terminal := true;
          return Rejected;
        }
        if invalid || Expired(current, call.settledAt) {
          return Rejected;
        }
        return Returned(current);
      }
      Register(call.answer.next);
      current, invalid := call.answer.next, false;
      return Returned(current);
    }

    method Invalidate()
      modifies this`invalid
      ensures View() == Step(old(View()), Invalidated)
    {
      invalid := true;
    }
  }

  /** NewADORefreshingCredentialSource. */
  method NewRefreshingSource(initial: Credential, resolver: bool, registrar: bool)
    returns (s: Option<RefreshingSource>)
    ensures Start(initial, resolver, registrar).None? ==> s.None?
    ensures Start(initial, resolver, registrar).Some? ==>
              s.Some? && fresh(s.value) && Start(initial, resolver, registrar) == Some(s.value.View())
  {
    if !WellFormed(initial) || !resolver {
      return None;
    }
    var source := new RefreshingSource(initial, registrar);
    return Some(source);
  }

  // ---------------------------------------------------------------- every run

  function After(s: Source, events: seq<Event>): Source {
    if events == [] then s
    else Step(After(s, events[..|events| - 1]), events[|events| - 1])
  }

  /** The source as event i finds it. */
  function Before(s: Source, events: seq<Event>, i: nat): Source
    requires i <= |events|
  {
    After(s, events[..i])
  }

  /** Event k reached the resolver, was answered with c, and the source accepted it. */
  predicate Supplies(s0: Source, events: seq<Event>, k: nat, c: Credential)
    requires k < |events|
  {
    Accepts(Before(s0, events, k), events[k]) && events[k].call.answer == Delivered(c)
  }

  lemma AfterNext(s: Source, events: seq<Event>, i: nat)
    requires i < |events|
    ensures Before(s, events, i + 1) == Step(Before(s, events, i), events[i])
  {
    assert events[..i + 1][..i] == events[..i];
  }

  /** What every run keeps of a source it started. */
  ghost predicate Kept(s0: Source, s: Source) {
    && WellFormed(s.current)
    && s.current.kind == s0.current.kind
    && s.current.username == s0.current.username
    && s.registrar == s0.registrar
    && (s.registrar ==> s.current in s.registered)
    && s0.registered <= s.registered
  }

  lemma {:induction false} RunKeeps(s0: Source, events: seq<Event>, i: nat)
    requires Kept(s0, s0) && i <= |events|
    ensures Kept(s0, Before(s0, events, i))
  {
    if i > 0 {
      RunKeeps(s0, events, i - 1);
      AfterNext(s0, events, i - 1);
    }
  }

  /** Every credential a run hands out is well formed, of the kind and user the attempt was
      given, registered before it is returned, and unexpired at a clock reading of that very
      call: the first one, or the last one when the call refreshed. */
  lemma ReturnedIsUsable(s0: Source, initial: Credential, registrar: bool, events: seq<Event>, i: nat, c: Credential)
    requires Start(initial, true, registrar) == Some(s0)
    requires i < |events| && OutcomeOf(Before(s0, events, i), events[i]) == Returned(c)
    ensures (c.kind == PAT || c.kind == Bearer) && Trim(c.secret) != ""
    ensures c.kind == initial.kind && c.username == initial.username
    ensures registrar ==> c in Before(s0, events, i + 1).registered
    ensures var call := events[i].call;
            var at := if Resolves(Before(s0, events, i), events[i]) then call.settledAt else call.dueAt;
            c.expiresAt.Some? ==> at < c.expiresAt.value
  {
    RunKeeps(s0, events, i);
    RunKeeps(s0, events, i + 1);
    AfterNext(s0, events, i);
  }

  /** Where the current credential came from: after a rejection by the server it is invalid
      until an answer given after that rejection replaces it. */
  lemma {:induction false} InvalidUntilDelivered(s0: Source, events: seq<Event>, j: nat, n: nat)
    requires j < n <= |events| && events[j].Invalidated?
    ensures Before(s0, events, n).invalid
            || exists k :: j < k < n && Supplies(s0, events, k, Before(s0, events, n).current)
    decreases n
  {
    AfterNext(s0, events, n - 1);
    if n > j + 1 {
      InvalidUntilDelivered(s0, events, j, n - 1);
      if Accepts(Before(s0, events, n - 1), events[n - 1]) {
        assert Supplies(s0, events, n - 1, Before(s0, events, n).current);
      }
    }
  }

  /** Once invalidated, nothing is returned until a later resolve succeeds, and then only
      what one delivered since: a call that reached the resolver and whose answer the source
      accepted. */
  lemma InvalidatedNeverReturned(s0: Source, events: seq<Event>, j: nat, i: nat, c: Credential)
    requires j < i < |events| && events[j].Invalidated?
    requires OutcomeOf(Before(s0, events, i), events[i]) == Returned(c)
    ensures exists k :: j < k <= i && Supplies(s0, events, k, c)
  {
    InvalidUntilDelivered(s0, events, j, i);
    if Accepts(Before(s0, events, i), events[i]) {
      assert Supplies(s0, events, i, c);
    }
  }

  /** A run is refused for good exactly when one of its refreshes was answered with a
      permanent refusal or with something that may not replace the credential. */
  lemma {:induction false} RefusedIff(s0: Source, events: seq<Event>, n: nat)
    requires !s0.terminal && n <= |events|
    ensures Before(s0, events, n).terminal
            <==> exists i :: 0 <= i < n && Terminates(Before(s0, events, i), events[i])
  {
    if n > 0 {
      RefusedIff(s0, events, n - 1);
      AfterNext(s0, events, n - 1);
    }
  }

  lemma {:induction false} RefusalLasts(s0: Source, events: seq<Event>, i: nat, n: nat)
    requires i <= n <= |events| && Before(s0, events, i).terminal
    ensures Before(s0, events, n).terminal
    decreases n
  {
    if i < n {
      RefusalLasts(s0, events, i, n - 1);
      AfterNext(s0, events, n - 1);
    }
  }

  /** After a permanent refusal no call reaches the resolver or returns a credential. */
  lemma RefusedForGood(s0: Source, events: seq<Event>, i: nat, j: nat)
    requires i < j < |events| && Terminates(Before(s0, events, i), events[i])
    ensures !Resolves(Before(s0, events, j), events[j])
    ensures !OutcomeOf(Before(s0, events, j), events[j]).Returned?
  {
    AfterNext(s0, events, i);
    RefusalLasts(s0, events, i + 1, j);
  }

  /** The clock does not go back within a call or from one call to the next. */
  ghost predicate ClockForward(events: seq<Event>) {
    && (forall i :: 0 <= i < |events| && events[i].Ask? ==>
          var c := events[i].call;
          c.dueAt <= c.skewAt <= c.throttleAt <= c.begunAt <= c.settledAt)
    && (forall i, j :: 0 <= i < j < |events| && events[i].Ask? && events[j].Ask? ==>
          events[i].call.settledAt <= events[j].call.dueAt)
  }

  lemma {:induction false} LastRefreshIsLatest(s0: Source, events: seq<Event>, i: nat, n: nat)
    requires i < n <= |events| && ClockForward(events)
    requires Resolves(Before(s0, events, i), events[i])
    ensures Before(s0, events, n).lastRefresh.Some?
    ensures Before(s0, events, n).lastRefresh.value >= events[i].call.begunAt
    decreases n
  {
    AfterNext(s0, events, n - 1);
    if i + 1 < n {
      LastRefreshIsLatest(s0, events, i, n - 1);
    }
  }

  /** A refresh that nothing forces, neither a rejection nor expiry, begins at least a minute
      after every refresh before it, and only in the last five minutes of the credential. */
  lemma UnforcedRefreshesAreSpaced(s0: Source, events: seq<Event>, i: nat, j: nat)
    requires i < j < |events| && ClockForward(events)
    requires Resolves(Before(s0, events, i), events[i]) && Resolves(Before(s0, events, j), events[j])
    requires !Before(s0, events, j).invalid && !Expired(Before(s0, events, j).current, events[j].call.dueAt)
    ensures events[j].call.begunAt - events[i].call.begunAt >= MINUTE
    ensures Before(s0, events, j).current.expiresAt.Some?
    ensures events[j].call.begunAt + REFRESH_SKEW >= Before(s0, events, j).current.expiresAt.value
  {
    LastRefreshIsLatest(s0, events, i, j);
  }

  lemma {:induction false} LastRefreshWasBegun(s0: Source, events: seq<Event>, n: nat)
    requires n <= |events| && s0.lastRefresh.None? && Before(s0, events, n).lastRefresh.Some?
    ensures exists j :: 0 <= j < n && Resolves(Before(s0, events, j), events[j])
              && events[j].call.begunAt == Before(s0, events, n).lastRefresh.value
  {
    AfterNext(s0, events, n - 1);
    if !Resolves(Before(s0, events, n - 1), events[n - 1]) {
      LastRefreshWasBegun(s0, events, n - 1);
    }
  }

  /** A refresh began in the minute before the reading. */
  ghost predicate JustRefreshed(s0: Source, events: seq<Event>, i: nat, at: int)
    requires i <= |events|
  {
    exists j :: 0 <= j < i && Resolves(Before(s0, events, j), events[j]) && at - events[j].call.begunAt < MINUTE
  }

  /** A credential handed out without asking the broker does not expire, has more than five
      minutes left, or was refreshed or tried for in the last minute. */
  lemma ReturnedHasMargin(s0: Source, events: seq<Event>, i: nat, c: Credential)
    requires s0.lastRefresh.None? && i < |events|
    requires OutcomeOf(Before(s0, events, i), events[i]) == Returned(c) && !Resolves(Before(s0, events, i), events[i])
    ensures c.expiresAt.Some? ==>
              || c.expiresAt.value - events[i].call.skewAt > REFRESH_SKEW
              || JustRefreshed(s0, events, i, events[i].call.throttleAt)
  {
    if Before(s0, events, i).lastRefresh.Some? {
      LastRefreshWasBegun(s0, events, i);
    }
  }

  /** The call is not cut short and the credential is good throughout it. */
  predicate Lasts(c: Credential, call: Call) {
    !call.endedBefore && !call.endedAfter && !Expired(c, call.settledAt)
  }

  /** A temporary outage of the broker costs nothing while the credential lasts: with only
      temporary failures a source never invalidated goes on returning the very credential it
      started with, up to its expiry. */
  lemma {:induction false} OutageKeepsCredential(s0: Source, events: seq<Event>, n: nat)
    requires n <= |events| && !s0.invalid && !s0.terminal
    requires forall k :: 0 <= k < n ==> events[k].Ask? && (events[k].call.answer.Failed? || events[k].call.endedAfter)
    ensures Before(s0, events, n).current == s0.current
    ensures !Before(s0, events, n).invalid && !Before(s0, events, n).terminal
    ensures forall k :: 0 <= k < n && Lasts(s0.current, events[k].call) ==>
              OutcomeOf(Before(s0, events, k), events[k]) == Returned(s0.current)
  {
    if n > 0 {
      OutageKeepsCredential(s0, events, n - 1);
      AfterNext(s0, events, n - 1);
    }
  }

  // ---------------------------------------------------------------- recovery

  /** next may stand in for the credential the attempt was given. */
  ghost predicate Replaces(next: Credential, given: Credential, at: int) {
    && (next.kind == PAT || next.kind == Bearer) && next.kind == given.kind
    && Trim(next.secret) != "" && next.username == given.username
    && (next.expiresAt.Some? ==> at < next.expiresAt.value)
  }

  /** A call that must refresh and is not cut short: a fit answer is returned and kept, an
      unfit one or a refusal ends the attempt, and a passing failure leaves it open. */
  lemma ForcedCall(s: Source, call: Call)
    requires !s.terminal && !call.endedBefore && !call.endedAfter
    requires s.invalid || (s.current.expiresAt.Some? && call.dueAt >= s.current.expiresAt.value)
    ensures call.answer.Delivered? && Replaces(call.answer.next, s.current, call.settledAt) ==>
              && OutcomeOf(s, Ask(call)) == Returned(call.answer.next)
              && Step(s, Ask(call)).current == call.answer.next
              && !Step(s, Ask(call)).invalid && !Step(s, Ask(call)).terminal
    ensures call.answer.Refused?
            || (call.answer.Delivered? && !Replaces(call.answer.next, s.current, call.settledAt)) ==>
              OutcomeOf(s, Ask(call)) == Rejected && Step(s, Ask(call)).terminal
    ensures call.answer.Failed? ==>
              && (s.invalid ==> OutcomeOf(s, Ask(call)) == Rejected)
              && Step(s, Ask(call)) == s.(lastRefresh := Some(call.begunAt))
  {
  }

  /** Nothing but passing failures and cut-short calls from event j to event i. */
  ghost predicate OnlyFailures(events: seq<Event>, j: nat, i: nat)
    requires i <= |events|
  {
    forall k :: j <= k < i && events[k].Ask? ==>
      var c := events[k].call; c.endedBefore || c.endedAfter || c.answer.Failed?
  }

  lemma {:induction false} StaysInvalid(s0: Source, events: seq<Event>, j: nat, i: nat)
    requires j < i <= |events| && events[j].Invalidated? && !Before(s0, events, j).terminal
    requires OnlyFailures(events, j, i)
    ensures Before(s0, events, i).invalid && !Before(s0, events, i).terminal
  {
    AfterNext(s0, events, i - 1);
    if i > j + 1 {
      StaysInvalid(s0, events, j, i - 1);
    }
  }

  /** A rejected credential is recovered from: however many refreshes fail in passing, the first
      fit answer is returned, and it is the current credential from then on. */
  lemma Recovers(s0: Source, initial: Credential, registrar: bool, events: seq<Event>, j: nat, i: nat)
    requires Start(initial, true, registrar) == Some(s0)
    requires j < i < |events| && events[j].Invalidated? && !Before(s0, events, j).terminal
    requires OnlyFailures(events, j, i)
    requires events[i].Ask? && !events[i].call.endedBefore && !events[i].call.endedAfter
    requires events[i].call.answer.Delivered?
    requires Replaces(events[i].call.answer.next, initial, events[i].call.settledAt)
    ensures OutcomeOf(Before(s0, events, i), events[i]) == Returned(events[i].call.answer.next)
    ensures var s := Before(s0, events, i + 1);
            s.current == events[i].call.answer.next && !s.invalid && !s.terminal
  {
    StaysInvalid(s0, events, j, i);
    RunKeeps(s0, events, i);
    AfterNext(s0, events, i);
    ForcedCall(Before(s0, events, i), events[i].call);
  }

  /** The call comes while the credential has more than five minutes left. */
  ghost predicate InMargin(c: Credential, call: Call) {
    c.expiresAt.Some? ==> call.dueAt < c.expiresAt.value && call.skewAt + 300_000_000_000 < c.expiresAt.value
  }

  /** While the credential has margin and the server does not reject it, calls return it and
      leave the source as it was: the broker is not asked again. */
  lemma {:induction false} MarginNeedsNoRefresh(s0: Source, events: seq<Event>, i: nat, n: nat)
    requires i <= n <= |events| && !Before(s0, events, i).invalid && !Before(s0, events, i).terminal
    requires forall k :: i <= k < n ==> events[k].Ask? && InMargin(Before(s0, events, i).current, events[k].call)
    ensures Before(s0, events, n) == Before(s0, events, i)
    ensures forall k :: i <= k < n && !events[k].call.endedBefore ==>
              OutcomeOf(Before(s0, events, k), events[k]) == Returned(Before(s0, events, i).current)
  {
    if i < n {
      MarginNeedsNoRefresh(s0, events, i, n - 1);
      AfterNext(s0, events, n - 1);
    }
  }
}
