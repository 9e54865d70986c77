/** Active-standby failover between blockchain endpoints. */
module Failover {
  import opened Common

  const FAILURE_THRESHOLD: nat := 3
  const U32_MAX: nat := 0xFFFF_FFFF

  datatype Role = Primary | HotStandby | Disconnected

  /** An endpoint is its URL; `lastSuccess` is an Instant. */
  datatype Connection = Connection(url: string, role: Role, failureCount: nat, lastSuccess: Option<nat>)

  function NewConnection(url: string): Connection { Connection(url, Disconnected, 0, None) }

  function AfterFailure(c: Connection): Connection
  {
    c.(failureCount := if c.failureCount < U32_MAX then c.failureCount + 1 else U32_MAX)
  }

  /** `position(|s| s.role == HotStandby)`; the length when there is none. */
  function FirstHot(standbys: seq<Connection>): (k: nat)
    ensures k <= |standbys|
    ensures forall i :: 0 <= i < k ==> standbys[i].role != HotStandby
    ensures k < |standbys| ==> standbys[k].role == HotStandby
  {
    if standbys == [] || standbys[0].role == HotStandby then 0 else 1 + FirstHot(standbys[1..])
  }

  datatype State = State(primary: Option<Connection>, standbys: seq<Connection>)

  datatype Event = SetPrimary(url: string, now: nat) | AddStandby(url: string) | Success(now: nat) | Failure

  /** The state after an event, and the URL that a failover promoted. */
  function Step(s: State, e: Event): (State, Option<string>)
  {
    match e
    case SetPrimary(url, now) =>
      (s.(primary := Some(NewConnection(url).(role := Primary, lastSuccess := Some(now)))), None)
    case AddStandby(url) =>
      (s.(standbys := s.standbys + [NewConnection(url).(role := HotStandby)]), None)
    case Success(now) =>
      (if s.primary == None then s else s.(primary := Some(s.primary.value.(failureCount := 0, lastSuccess := Some(now)))), None)
    case Failure =>
      if s.primary == None then (s, None)
      else
        var failed := AfterFailure(s.primary.value);
        var k := FirstHot(s.standbys);
        if failed.failureCount >= FAILURE_THRESHOLD && k < |s.standbys| then
          var promoted := s.standbys[k].(role := Primary, failureCount := 0);
          (State(Some(promoted), s.standbys[..k] + s.standbys[k + 1..] + [failed.(role := Disconnected)]), Some(promoted.url))
        else (s.(primary := Some(failed)), None)
  }

  class FailoverManager {
    var primary: Option<Connection>
    var standbys: seq<Connection>

    ghost function Abs(): State
      reads this
    {
      State(primary, standbys)
    }

    constructor ()
      ensures Abs() == INITIAL
    {
      primary, standbys := None, [];
    }

    method SetPrimary(url: string, now: nat)
      modifies this`primary
      ensures Abs() == Step(old(Abs()), Event.SetPrimary(url, now)).0
    {
      var state := NewConnection(url);
      state := state.(role := Primary);
      state := state.(lastSuccess := Some(now));
      primary := Some(state);
    }

    method AddStandby(url: string)
      modifies this`standbys
      ensures Abs() == Step(old(Abs()), Event.AddStandby(url)).0
    {
      var state := NewConnection(url);
      state := state.(role := HotStandby);
      standbys := standbys + [state];
    }

    method RecordPrimarySuccess(now: nat)
      modifies this`primary
      ensures Abs() == Step(old(Abs()), Success(now)).0
    {
      if primary.Some? {
        primary := Some(primary.value.(failureCount := 0, lastSuccess := Some(now)));
      }
    }

    method RecordPrimaryFailure() returns (newPrimary: Option<string>)
      modifies this
      ensures (Abs(), newPrimary) == Step(old(Abs()), Failure)
      ensures newPrimary.Some? ==> primary.Some? && newPrimary.value == primary.value.url
    {
      if primary.Some? {
        primary := Some(AfterFailure(primary.value));
        if primary.value.failureCount >= FAILURE_THRESHOLD {
          var idx := FirstHot(standbys);
          if idx < |standbys| {
            var promoted := standbys[idx];
            standbys := standbys[..idx] + standbys[idx + 1..];
            promoted := promoted.(role := Primary, failureCount := 0);
            var demoted := primary.value.(role := Disconnected);
            standbys := standbys + [demoted];
            primary := Some(promoted);
            return Some(promoted.url);
          }
        }
      }
      return None;
    }
  }

  // --------------------------------------------------------------------- runs --

  const INITIAL := State(None, [])

  ghost function After(events: seq<Event>): State
  {
    if events == [] then INITIAL else Step(After(events[..|events| - 1]), events[|events| - 1]).0
  }

  /** The URL promoted by the last event of a run, if any. */
  ghost function PromotedLast(events: seq<Event>): Option<string>
    requires events != []
  {
    Step(After(events[..|events| - 1]), events[|events| - 1]).1
  }

  /** The URLs promoted over a run, in order. */
  ghost function Promoted(events: seq<Event>): seq<string>
  {
    if events == [] then []
    else
      var p := PromotedLast(events);
      Promoted(events[..|events| - 1]) + if p == None then [] else [p.value]
  }

  /** The URLs added as standby over a run, in order. */
  ghost function Added(events: seq<Event>): seq<string>
  {
    if events == [] then []
    else
      var last := events[|events| - 1];
      Added(events[..|events| - 1]) + if last.AddStandby? then [last.url] else []
  }

  ghost function HotUrls(standbys: seq<Connection>): seq<string>
  {
    if standbys == [] then []
    else
      var last := standbys[|standbys| - 1];
      HotUrls(standbys[..|standbys| - 1]) + if last.role == HotStandby then [last.url] else []
  }

  /** The primary has role Primary and no standby does. */
  ghost predicate RolesInOrder(s: State)
  {
    && (s.primary.Some? ==> s.primary.value.role == Primary)
    && (forall i :: 0 <= i < |s.standbys| ==> s.standbys[i].role != Primary)
  }

  lemma {:induction false} HotUrlsConcat(a: seq<Connection>, b: seq<Connection>)
    ensures HotUrls(a + b) == HotUrls(a) + HotUrls(b)
  {
    if b == [] {
      assert a + b == a;
    } else {
      var front, last := b[..|b| - 1], b[|b| - 1];
      HotUrlsConcat(a, front);
      assert (a + b)[..|a + b| - 1] == a + front;
    }
  }

  lemma {:induction false} NoHotUrls(standbys: seq<Connection>)
    requires forall i :: 0 <= i < |standbys| ==> standbys[i].role != HotStandby
    ensures HotUrls(standbys) == []
  {
    if standbys != [] {
      NoHotUrls(standbys[..|standbys| - 1]);
    }
  }

  lemma OneUrl(c: Connection)
    ensures HotUrls([c]) == if c.role == HotStandby then [c.url] else []
  {
    assert HotUrls([c][..0]) == [];
  }

  lemma QueueHead(before: seq<Connection>, hot: Connection, after: seq<Connection>, demoted: Connection)
    requires forall i :: 0 <= i < |before| ==> before[i].role != HotStandby
    requires hot.role == HotStandby && demoted.role != HotStandby
    ensures HotUrls(before + ([hot] + after)) == [hot.url] + HotUrls(before + after + [demoted])
  {
    hide HotUrls;
    HotUrlsConcat(before, [hot] + after);
    HotUrlsConcat([hot], after);
    HotUrlsConcat(before + after, [demoted]);
    HotUrlsConcat(before, after);
    NoHotUrls(before);
    OneUrl(hot);
    OneUrl(demoted);
  }

  lemma SplitAt<T>(s: seq<T>, k: nat)
    requires k < |s|
    ensures s == s[..k] + ([s[k]] + s[k + 1..])
  {
  }

  /** A failover takes the oldest hot standby and leaves the order of the others alone. */
  lemma FailoverTakesFirst(standbys: seq<Connection>, demoted: Connection)
    requires FirstHot(standbys) < |standbys| && demoted.role == Disconnected
    ensures var k := FirstHot(standbys);
      HotUrls(standbys) == [standbys[k].url] + HotUrls(standbys[..k] + standbys[k + 1..] + [demoted])
  {
    hide HotUrls, FirstHot;
    var k := FirstHot(standbys);
    SplitAt(standbys, k);
    QueueHead(standbys[..k], standbys[k], standbys[k + 1..], demoted);
  }

  ghost function AsSeq(p: Option<string>): seq<string> { if p == None then [] else [p.value] }

  /** What one event does to the queue of hot standbys. */
  lemma StepQueue(s: State, e: Event)
    ensures var (t, promoted) := Step(s, e);
      if e.AddStandby? then promoted == None && HotUrls(t.standbys) == HotUrls(s.standbys) + [e.url]
      else HotUrls(s.standbys) == AsSeq(promoted) + HotUrls(t.standbys)
  {
    hide HotUrls;
    if e.AddStandby? {
      var added := NewConnection(e.url).(role := HotStandby);
      HotUrlsConcat(s.standbys, [added]);
      OneUrl(added);
    } else if Step(s, e).1.Some? {
      FailoverTakesFirst(s.standbys, AfterFailure(s.primary.value).(role := Disconnected));
    } else {
      assert [] + HotUrls(s.standbys) == HotUrls(s.standbys);
    }
  }

  lemma StepRoles(s: State, e: Event)
    requires RolesInOrder(s)
    ensures RolesInOrder(Step(s, e).0)
  {
  }

  /** Every run: roles are in order, and the added standbys are those promoted so far, then those still waiting. */
  lemma {:induction false} PromotedInOrderAdded(events: seq<Event>)
    ensures RolesInOrder(After(events))
    ensures Promoted(events) + HotUrls(After(events).standbys) == Added(events)
  {
    hide HotUrls, Step, RolesInOrder;
    if events == [] {
      NothingHot();
    } else {
      var front, last := events[..|events| - 1], events[|events| - 1];
      PromotedInOrderAdded(front);
      StepQueue(After(front), last);
      StepRoles(After(front), last);
      assert Promoted(events) == Promoted(front) + AsSeq(PromotedLast(events));
      if !last.AddStandby? {
        assert Promoted(front) + (AsSeq(PromotedLast(events)) + HotUrls(After(events).standbys))
            == Promoted(events) + HotUrls(After(events).standbys);
      }
    }
  }

  lemma NothingHot()
    ensures HotUrls([]) == [] && RolesInOrder(INITIAL)
  {
  }

  /** Each added standby is promoted at most once, in the order of addition; a demoted connection is not promoted again. */
  lemma PromotionsArePrefix(events: seq<Event>)
    ensures Promoted(events) <= Added(events) && |Promoted(events)| <= |Added(events)|
  {
    PromotedInOrderAdded(events);
  }

  ghost function UrlList(standbys: seq<Connection>): seq<string>
  {
    seq(|standbys|, i requires 0 <= i < |standbys| => standbys[i].url)
  }

  /** All endpoints the manager knows, with multiplicity. */
  ghost function Urls(s: State): multiset<string>
  {
    multiset(UrlList(s.standbys)) + if s.primary == None then multiset{} else multiset{s.primary.value.url}
  }

  lemma UrlListConcat(a: seq<Connection>, b: seq<Connection>)
    ensures UrlList(a + b) == UrlList(a) + UrlList(b)
  {
  }

  lemma SwapUrls(before: seq<Connection>, hot: Connection, after: seq<Connection>, demoted: Connection)
    ensures multiset(UrlList(before + ([hot] + after))) + multiset{demoted.url}
         == multiset(UrlList(before + after + [demoted])) + multiset{hot.url}
  {
    UrlListConcat(before, [hot] + after);
    UrlListConcat([hot], after);
    UrlListConcat(before + after, [demoted]);
    UrlListConcat(before, after);
    assert UrlList([hot]) == [hot.url] && UrlList([demoted]) == [demoted.url];
  }

  /** Liveness results never lose or duplicate an endpoint. */
  lemma LivenessKeepsEndpoints(s: State, e: Event)
    requires e.Failure? || e.Success?
    ensures Urls(Step(s, e).0) == Urls(s)
  {
    if e.Failure? && Step(s, e).1.Some? {
      hide UrlList, FirstHot;
      var k := FirstHot(s.standbys);
      SplitAt(s.standbys, k);
      SwapUrls(s.standbys[..k], s.standbys[k], s.standbys[k + 1..], AfterFailure(s.primary.value).(role := Disconnected));
    }
  }

  /** Failures since the last success, promotion or `set_primary`. */
  ghost function FailureRun(events: seq<Event>): nat
  {
    if events == [] then 0
    else
      var front, last := events[..|events| - 1], events[|events| - 1];
      match last
      case AddStandby(_) => FailureRun(front)
      case Failure =>
        if After(front).primary == None || PromotedLast(events).Some? then 0 else FailureRun(front) + 1
      case _ => 0
  }

  /** The counter is that number, until it saturates. */
  lemma {:induction false} CounterCountsFailures(events: seq<Event>)
    requires After(events).primary.Some?
    ensures var n := FailureRun(events);
      After(events).primary.value.failureCount == if n < U32_MAX then n else U32_MAX
  {
    if events != [] {
      var front, last := events[..|events| - 1], events[|events| - 1];
      if After(front).primary.Some? {
        CounterCountsFailures(front);
      }
    }
  }

  /** A failover happens exactly at the third or later failure in a row, as soon as a hot standby is waiting. */
  lemma FailoverExactlyWhen(events: seq<Event>)
    requires After(events).primary.Some?
    ensures PromotedLast(events + [Failure]).Some?
       <==> FailureRun(events) + 1 >= 3 && HotUrls(After(events).standbys) != []
  {
    var s := After(events);
    assert (events + [Failure])[..|events|] == events;
    CounterCountsFailures(events);
    var k := FirstHot(s.standbys);
    if k < |s.standbys| {
      FailoverTakesFirst(s.standbys, NewConnection(""));
    } else {
      NoHotUrls(s.standbys);
    }
  }

  // -------------------------------------------------------------- the primary --

  /** The endpoint last set or promoted, whichever came later. */
  ghost function LatestPrimary(events: seq<Event>): Option<string>
  {
    if events == [] then None
    else
      var last := events[|events| - 1];
      if last.SetPrimary? then Some(last.url)
      else if PromotedLast(events).Some? then PromotedLast(events)
      else LatestPrimary(events[..|events| - 1])
  }

  /** When it last answered: at the latest success or set_primary since it became the primary. */
  ghost function LatestAnswer(events: seq<Event>): Option<nat>
  {
    if events == [] then None
    else
      var front, last := events[..|events| - 1], events[|events| - 1];
      match last
      case SetPrimary(_, now) => Some(now)
      case Success(now) => if LatestPrimary(front) == None then None else Some(now)
      case Failure => if PromotedLast(events).Some? then None else LatestAnswer(front)
      case AddStandby(_) => LatestAnswer(front)
  }

  /** Hot standbys have neither failed nor answered. */
  ghost predicate HotAreUntried(s: State)
  {
    forall i :: 0 <= i < |s.standbys| && s.standbys[i].role == HotStandby ==>
      s.standbys[i].failureCount == 0 && s.standbys[i].lastSuccess == None
  }

  lemma StepUntried(s: State, e: Event)
    requires HotAreUntried(s)
    ensures HotAreUntried(Step(s, e).0)
  {
  }

  /** On every run the primary is the endpoint last set or promoted, with role Primary, the failures since then that no
      success interrupted, and the time of its latest answer. */
  lemma {:induction false} PrimaryIsLatest(events: seq<Event>)
    ensures HotAreUntried(After(events))
    ensures var primary, n := After(events).primary, FailureRun(events);
      primary == if LatestPrimary(events) == None then None
        else Some(Connection(LatestPrimary(events).value, Primary, if n < 0xFFFF_FFFF then n else 0xFFFF_FFFF, LatestAnswer(events)))
  {
    hide FirstHot;
    if events != [] {
      var front, last := events[..|events| - 1], events[|events| - 1];
      PrimaryIsLatest(front);
      StepUntried(After(front), last);
      hide HotAreUntried;
      if last.Failure? && PromotedLast(events).Some? {
        PromotedIsUntried(After(front));
      }
    }
  }

  lemma PromotedIsUntried(s: State)
    requires HotAreUntried(s) && Step(s, Failure).1.Some?
    ensures Step(s, Failure).0.primary == Some(Connection(Step(s, Failure).1.value, Primary, 0, None))
  {
  }

  /** The k-th standby takes the primary's place under its own URL, which is the one reported; the others keep URL, role,
      count and order; and the old primary goes behind them, disconnected, with its URL and one more failure. */
  ghost predicate Swaps(s: State, t: State, reported: Option<string>, k: nat)
  {
    && k < |s.standbys| == |t.standbys| && s.primary.Some? && t.primary.Some?
    && reported == Some(s.standbys[k].url) && t.primary.value.url == s.standbys[k].url
    && t.primary.value.role == Primary && t.primary.value.failureCount == 0
    && (forall i :: 0 <= i < k ==> t.standbys[i] == s.standbys[i])
    && (forall i :: k < i < |s.standbys| ==> t.standbys[i - 1] == s.standbys[i])
    && var before, demoted := s.primary.value, t.standbys[|t.standbys| - 1];
       && demoted.url == before.url && demoted.role == Disconnected && demoted.lastSuccess == before.lastSuccess
       && (before.failureCount < 0xFFFF_FFFF ==> demoted.failureCount == before.failureCount + 1)
  }

  /** A failover swaps the primary with the first hot standby. */
  lemma FailoverSwaps(s: State) returns (k: nat)
    requires Step(s, Failure).1.Some?
    ensures Swaps(s, Step(s, Failure).0, Step(s, Failure).1, k)
    ensures s.standbys[k].role == HotStandby && forall i :: 0 <= i < k ==> s.standbys[i].role != HotStandby
  {
    k := FirstHot(s.standbys);
    hide FirstHot;
    var t := Step(s, Failure).0;
    var rest := s.standbys[..k] + s.standbys[k + 1..];
    assert forall i :: 0 <= i < |rest| ==> t.standbys[i] == rest[i];
    forall i | k < i < |s.standbys| ensures t.standbys[i - 1] == s.standbys[i] {
      assert rest[i - 1] == s.standbys[i];
    }
  }
}
