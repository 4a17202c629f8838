/**
 The session's counters (`crates/core/src/stats.rs`): what one cycle asks and publishes, and what
 holds over a whole run of cycles whatever the server answers.
 */
module Stats {
  import opened Wrappers
  import L = FilterLaws

  /** A counter's number, or the dash of one that could not be read. */
  type Count = Option<nat>

  datatype Counter = Clusters | Hosts | Vms | VmsOn | AlertsCritical | AlertsWarning | TasksRunning

  datatype Stats = Stats(
    clusters: Count, hosts: Count, vms: Count, vmsOn: Count,
    alertsCritical: Count, alertsWarning: Count, tasksRunning: Count, stale: bool)

  const NO_STATS := Stats(None, None, None, None, None, None, None, false)

  function Slot(s: Stats, c: Counter): Count {
    match c
    case Clusters => s.clusters
    case Hosts => s.hosts
    case Vms => s.vms
    case VmsOn => s.vmsOn
    case AlertsCritical => s.alertsCritical
    case AlertsWarning => s.alertsWarning
    case TasksRunning => s.tasksRunning
  }

  function WithSlot(s: Stats, c: Counter, n: Count): (r: Stats)
    ensures Slot(r, c) == n && r.stale == s.stale
    ensures forall d :: d != c ==> Slot(r, d) == Slot(s, d)
  {
    match c
    case Clusters => s.(clusters := n)
    case Hosts => s.(hosts := n)
    case Vms => s.(vms := n)
    case VmsOn => s.(vmsOn := n)
    case AlertsCritical => s.(alertsCritical := n)
    case AlertsWarning => s.(alertsWarning := n)
    case TasksRunning => s.(tasksRunning := n)
  }

  // ---- what is asked ----

  datatype CounterDef = CounterDef(counter: Counter, kind: string, filter: Option<string>, clusterOn: Option<string>)

  /** The unresolved alerts of one severity. */
  function AlertFilter(severity: string): string {
    "severity eq Monitoring.Common.Severity'" + (severity + "' and isResolved eq false")
  }

  const COUNTERS: seq<CounterDef> := [
    CounterDef(Clusters, "clustermgmt.config.Cluster", None, None),
    CounterDef(Hosts, "clustermgmt.config.Host", None, None),
    CounterDef(Vms, "vmm.ahv.config.Vm", None, Some("cluster/extId")),
    CounterDef(VmsOn, "vmm.ahv.config.Vm", Some("powerState eq Vmm.Ahv.Config.PowerState'ON'"), Some("cluster/extId")),
    CounterDef(AlertsCritical, "monitoring.serviceability.Alert",
               Some(AlertFilter("CRITICAL")), Some("clusterUUID")),
    CounterDef(AlertsWarning, "monitoring.serviceability.Alert",
               Some(AlertFilter("WARNING")), Some("clusterUUID")),
    CounterDef(TasksRunning, "prism.config.Task", Some("status eq Prism.Config.TaskStatus'RUNNING'"), None)
  ]

  /** What is fixed for a session: the pinned cluster, and per kind the catalog knows whether it is
      served here and takes a `$filter`. */
  datatype Session = Session(cluster: Option<string>, kinds: map<string, KindInfo>)

  datatype KindInfo = KindInfo(served: bool, takesFilter: bool)

  /** A cluster scope, the quote that would end its literal doubled. */
  function ScopeOn(field: string, cluster: string): string {
    field + " eq '" + L.DoubleQuotes(cluster) + "'"
  }

  function ComposedFilter(filter: Option<string>, scope: Option<string>): Option<string> {
    match (filter, scope)
    case (Some(f), Some(s)) => Some(f + (" and " + s))
    case (Some(f), None) => Some(f)
    case (None, _) => scope
  }

  /** What a counter is asked with, or nothing when it has to be blank: a kind the catalog or the
      server lacks, a counter the pinned cluster cannot scope, a filter the kind does not take. */
  datatype Plan = Blank | Ask(filter: Option<string>)

  function PlanFor(session: Session, def: CounterDef): Plan {
    if def.kind !in session.kinds || !session.kinds[def.kind].served then Blank
    else if session.cluster.Some? && def.clusterOn.None? then Blank
    else
      var scope := if session.cluster.Some? then Some(ScopeOn(def.clusterOn.value, session.cluster.value)) else None;
      var filter := ComposedFilter(def.filter, scope);
      if filter.Some? && !session.kinds[def.kind].takesFilter then Blank else Ask(filter)
  }

  datatype PrismError =
    | Auth | Denied | Forbidden | NotFound | Api(status: nat) | RateLimited | Transport | Other

  /** The errors that will be the same next time: the request itself was turned down. */
  predicate IsRefusal(e: PrismError) {
    e.Auth? || e.Denied? || e.Forbidden? || e.NotFound? || (e.Api? && 400 <= e.status <= 499)
  }

  datatype Reply = Page(total: Count) | Failed(error: PrismError)

  /** What the server would answer each counter in one cycle. */
  type Replies = Counter -> Reply

  // ---- one cycle ----

  datatype Cycle = Cycle(stats: Stats, refused: seq<Counter>, asked: seq<Counter>, answered: bool)

  function Turn(session: Session, c: Cycle, def: CounterDef, replies: Replies): Cycle {
    if def.counter in c.refused then c.(stats := WithSlot(c.stats, def.counter, None))
    else if PlanFor(session, def).Blank? then c.(stats := WithSlot(c.stats, def.counter, None))
    else
      var asked := c.(asked := c.asked + [def.counter]);
      match replies(def.counter)
      case Page(total) => asked.(stats := WithSlot(c.stats, def.counter, total), answered := true)
      case Failed(e) =>
        if IsRefusal(e) then asked.(refused := c.refused + [def.counter], stats := WithSlot(c.stats, def.counter, None))
        else asked
  }

  function Turns(session: Session, c: Cycle, defs: seq<CounterDef>, replies: Replies): Cycle
    decreases |defs|
  {
    if defs == [] then c else Turns(session, Turn(session, c, defs[0], replies), defs[1..], replies)
  }

  datatype Outcome = Answered | AllFailed | NothingAsked

  function Pinned(session: Session, s: Stats): Stats {
    if session.cluster.Some? then s.(clusters := Some(1)) else s
  }

  function OneCycle(session: Session, previous: Stats, refused: seq<Counter>, replies: Replies): Cycle {
    var c := Turns(session, Cycle(previous.(stale := false), refused, [], false), COUNTERS, replies);
    c.(stats := Pinned(session, c.stats))
  }

  function OutcomeOf(c: Cycle): Outcome {
    if c.answered then Answered else if c.asked != [] then AllFailed else NothingAsked
  }

  /** What is published after a cycle: its own numbers, or the previous ones marked stale when it asked
      and got no answer at all. */
  function Fold(previous: Stats, stats: Stats, outcome: Outcome): Stats {
    if outcome.AllFailed? then previous.(stale := true) else stats
  }

  // ---- the poller ----

  class Poller {
    const session: Session
    var previous: Stats
    var refused: seq<Counter>

    constructor (session: Session)
      ensures this.session == session && previous == NO_STATS && refused == []
    {
      this.session := session;
      previous, refused := NO_STATS, [];
    }

    /** One pass over the counters, from the previous numbers. */
    method RunCycle(replies: Replies) returns (stats: Stats, outcome: Outcome)
      modifies this`refused
      ensures var c := OneCycle(session, previous, old(refused), replies);
              stats == c.stats && refused == c.refused && outcome == OutcomeOf(c)
    {
      hide PlanFor, WithSlot, AlertFilter;
      stats := previous.(stale := false);
      ghost var begin := Cycle(stats, refused, [], false);
      ghost var log: seq<Counter> := [];
      var asked, answered := false, false;
      var i := 0;
      while i < |COUNTERS|
        invariant 0 <= i <= |COUNTERS|
        invariant asked <==> log != []
        invariant Turns(session, begin, COUNTERS, replies) ==
                  Turns(session, Cycle(stats, refused, log, answered), COUNTERS[i..], replies)
      {
        assert COUNTERS[i..][0] == COUNTERS[i] && COUNTERS[i..][1..] == COUNTERS[i + 1..];
        var def := COUNTERS[i];
        i := i + 1;
        if def.counter in refused {
          stats := WithSlot(stats, def.counter, None);
          continue;
        }
        if PlanFor(session, def).Blank? {
          stats := WithSlot(stats, def.counter, None);
          continue;
        }
        asked := true;
        log := log + [def.counter];
        match replies(def.counter) {
          case Page(total) =>
            answered := true;
            stats := WithSlot(stats, def.counter, total);
          case Failed(e) =>
            if IsRefusal(e) {
              refused := refused + [def.counter];
              stats := WithSlot(stats, def.counter, None);
            }
        }
      }
      if session.cluster.Some? {
        stats := stats.(clusters := Some(1));
      }
      outcome := if answered then Answered else if asked then AllFailed else NothingAsked;
    }

    /** One turn of the loop: a cycle, folded onto the previous numbers and published. */
    method Poll(replies: Replies) returns (published: Stats)
      modifies this
      ensures published == previous
      ensures Polled(previous, refused, OneCycle(session, old(previous), old(refused), replies).asked)
           == Step(session, Polled(old(previous), old(refused), []), replies)
    {
      var stats, outcome := RunCycle(replies);
      previous := Fold(previous, stats, outcome);
      published := previous;
    }
  }

  // ---- whole runs ----

  /** The poller between two turns, and what the last one asked. */
  datatype Polled = Polled(previous: Stats, refused: seq<Counter>, asked: seq<Counter>)

  function Step(session: Session, p: Polled, replies: Replies): Polled {
    var c := OneCycle(session, p.previous, p.refused, replies);
    Polled(Fold(p.previous, c.stats, OutcomeOf(c)), c.refused, c.asked)
  }

  /** The poller after a run: the replies of each cycle in turn, whatever they are. */
  function After(session: Session, run: seq<Replies>): Polled {
    if run == [] then Polled(NO_STATS, [], [])
    else Step(session, After(session, run[..|run| - 1]), run[|run| - 1])
  }

  predicate Distinct(defs: seq<CounterDef>) {
    forall i, j :: 0 <= i < j < |defs| ==> defs[i].counter != defs[j].counter
  }

  predicate Lists(defs: seq<CounterDef>, c: Counter) {
    exists i :: 0 <= i < |defs| && defs[i].counter == c
  }

  lemma ListsStep(defs: seq<CounterDef>, c: Counter)
    requires defs != []
    ensures Lists(defs, c) <==> defs[0].counter == c || Lists(defs[1..], c)
  {
    if Lists(defs, c) && defs[0].counter != c {
      var i :| 0 <= i < |defs| && defs[i].counter == c;
      assert defs[1..][i - 1] == defs[i];
    }
    if Lists(defs[1..], c) {
      var i :| 0 <= i < |defs[1..]| && defs[1..][i].counter == c;
      assert defs[i + 1] == defs[1..][i];
    }
    if defs[0].counter == c {
      assert Lists(defs, c);
    }
  }

  lemma DistinctRest(defs: seq<CounterDef>)
    requires defs != [] && Distinct(defs)
    ensures Distinct(defs[1..]) && !Lists(defs[1..], defs[0].counter)
  {
    var rest := defs[1..];
    assert forall i :: 0 <= i < |rest| ==> rest[i] == defs[i + 1];
  }

  /** What the turns of one cycle do to the refusals and the requests of one counter. */
  lemma {:induction false} TurnsAskCounter(session: Session, c: Cycle, defs: seq<CounterDef>, replies: Replies,
                                           d: Counter)
    requires Distinct(defs)
    ensures var r := Turns(session, c, defs, replies);
            && (d in c.refused ==> d in r.refused)
            && (d in c.asked ==> d in r.asked)
            && (d in r.asked ==> d in c.asked || (d !in c.refused && Asks(session, defs, d)))
            && (d in r.refused ==> d in c.refused || d in r.asked)
            && (!Lists(defs, d) && d in r.refused ==> d in c.refused)
    decreases |defs|
  {
    if defs != [] {
      var c1 := Turn(session, c, defs[0], replies);
      ListsStep(defs, d);
      DistinctRest(defs);
      AsksStep(session, defs, d);
      TurnsAskCounter(session, c1, defs[1..], replies, d);
    }
  }

  /** ... and to its number. */
  lemma {:induction false} TurnsNumberCounter(session: Session, c: Cycle, defs: seq<CounterDef>, replies: Replies,
                                              d: Counter)
    requires Distinct(defs)
    ensures var r := Turns(session, c, defs, replies);
            && r.stats.stale == c.stats.stale
            && (Lists(defs, d) && d in r.refused ==> Slot(r.stats, d) == None)
            && (!Lists(defs, d) ==> Slot(r.stats, d) == Slot(c.stats, d))
            && (Slot(r.stats, d).Some? ==> Slot(r.stats, d) == Slot(c.stats, d) ||
                                           (d in r.asked && replies(d) == Page(Slot(r.stats, d))))
    decreases |defs|
  {
    if defs != [] {
      var c1 := Turn(session, c, defs[0], replies);
      ListsStep(defs, d);
      DistinctRest(defs);
      TurnsAskCounter(session, c1, defs[1..], replies, d);
      TurnsNumberCounter(session, c1, defs[1..], replies, d);
      TurnOnNumber(session, c, defs[0], replies, d);
      hide Turn, Lists, Distinct, Asks, Slot;
    }
  }

  lemma TurnOnNumber(session: Session, c: Cycle, def: CounterDef, replies: Replies, d: Counter)
    ensures var r := Turn(session, c, def, replies);
            && r.stats.stale == c.stats.stale
            && (d != def.counter ==> Slot(r.stats, d) == Slot(c.stats, d))
            && (d == def.counter && d in r.refused ==> Slot(r.stats, d) == None)
            && (Slot(r.stats, d).Some? ==> Slot(r.stats, d) == Slot(c.stats, d) ||
                                           (d in r.asked && replies(d) == Page(Slot(r.stats, d))))
  {
    hide PlanFor, Slot;
  }

  /** Some definition of the counter has something to ask for in this session. */
  predicate Asks(session: Session, defs: seq<CounterDef>, c: Counter) {
    exists i :: 0 <= i < |defs| && defs[i].counter == c && PlanFor(session, defs[i]).Ask?
  }

  lemma AsksStep(session: Session, defs: seq<CounterDef>, c: Counter)
    requires defs != []
    ensures Asks(session, defs[1..], c) ==> Asks(session, defs, c)
    ensures defs[0].counter == c && PlanFor(session, defs[0]).Ask? ==> Asks(session, defs, c)
  {
    if Asks(session, defs[1..], c) {
      var i :| 0 <= i < |defs[1..]| && defs[1..][i].counter == c && PlanFor(session, defs[1..][i]).Ask?;
      assert defs[i + 1] == defs[1..][i];
    }
    if defs[0].counter == c && PlanFor(session, defs[0]).Ask? {
      assert Asks(session, defs, c);
    }
  }

  lemma EveryCounterIsListedOnce(c: Counter)
    ensures Distinct(COUNTERS) && Lists(COUNTERS, c)
  {
    var i := match c case Clusters => 0 case Hosts => 1 case Vms => 2 case VmsOn => 3
      case AlertsCritical => 4 case AlertsWarning => 5 case TasksRunning => 6;
    assert COUNTERS[i].counter == c;
  }

  /** A pinned session never asks for its clusters: there is one by definition. */
  lemma PinnedClustersAreNotAsked(session: Session)
    requires session.cluster.Some?
    ensures !Asks(session, COUNTERS, Clusters)
  {}

  /** What one step of the poller does to the refusals and requests of one counter. */
  lemma StepAsksCounter(session: Session, p: Polled, replies: Replies, d: Counter)
    ensures var q := Step(session, p, replies);
            && (d in p.refused ==> d in q.refused && d !in q.asked)
            && (d in q.refused ==> d in p.refused || d in q.asked)
            && (d in q.asked ==> Asks(session, COUNTERS, d))
  {
    EveryCounterIsListedOnce(d);
    var begin := Cycle(p.previous.(stale := false), p.refused, [], false);
    TurnsAskCounter(session, begin, COUNTERS, replies, d);
    hide Turns, Asks, Lists, Distinct, Pinned;
  }

  /** ... and to its number. */
  lemma StepNumbersCounter(session: Session, p: Polled, replies: Replies, d: Counter)
    ensures var q := Step(session, p, replies);
            && (!q.previous.stale && d in q.refused && !(session.cluster.Some? && d == Clusters) ==>
                Slot(q.previous, d) == None)
            && (Slot(q.previous, d).Some? ==>
                  || Slot(q.previous, d) == Slot(p.previous, d)
                  || (d in q.asked && replies(d) == Page(Slot(q.previous, d)))
                  || (session.cluster.Some? && d == Clusters && Slot(q.previous, d) == Some(1)))
            && (q.previous.stale ==> q.previous == p.previous.(stale := true))
  {
    EveryCounterIsListedOnce(d);
    var begin := Cycle(p.previous.(stale := false), p.refused, [], false);
    TurnsNumberCounter(session, begin, COUNTERS, replies, d);
    var c := Turns(session, begin, COUNTERS, replies);
    SlotsAround(session, p.previous, c.stats, d);
    hide Turns, Asks, Lists, Distinct, Slot, Pinned;
  }

  /** The stale flag is no counter's number, and a pin sets one of them. */
  lemma SlotsAround(session: Session, previous: Stats, s: Stats, d: Counter)
    ensures Slot(previous.(stale := false), d) == Slot(previous.(stale := true), d) == Slot(previous, d)
    ensures Slot(Pinned(session, s), d) == if session.cluster.Some? && d == Clusters then Some(1) else Slot(s, d)
    ensures Pinned(session, s).stale == s.stale
  {}

  /** The poller after the first `n` cycles of a run. */
  function At(session: Session, run: seq<Replies>, n: nat): Polled
    requires n <= |run|
  {
    After(session, run[..n])
  }

  lemma AtStart(session: Session, run: seq<Replies>)
    ensures At(session, run, 0) == Polled(NO_STATS, [], [])
  {}

  lemma AtSteps(session: Session, run: seq<Replies>, n: nat)
    requires 0 < n <= |run|
    ensures At(session, run, n) == Step(session, At(session, run, n - 1), run[n - 1])
  {
    assert run[..n][..n - 1] == run[..n - 1];
  }

  lemma {:induction false} RefusalsStay(session: Session, run: seq<Replies>, i: nat, j: nat, c: Counter)
    requires i <= j <= |run| && c in At(session, run, i).refused
    ensures c in At(session, run, j).refused
    decreases j
  {
    hide At, Step, Slot, Asks;
    if i < j {
      RefusalsStay(session, run, i, j - 1, c);
      AtSteps(session, run, j);
      StepAsksCounter(session, At(session, run, j - 1), run[j - 1], c);
    }
  }

  /** Over any run, a refused counter is never asked again. */
  lemma RefusedCountersAreNeverAskedAgain(session: Session, run: seq<Replies>, i: nat, j: nat, c: Counter)
    requires i < j <= |run| && c in At(session, run, i).refused
    ensures c !in At(session, run, j).asked
  {
    hide At, Step, Slot, Asks;
    RefusalsStay(session, run, i, j - 1, c);
    AtSteps(session, run, j);
    StepAsksCounter(session, At(session, run, j - 1), run[j - 1], c);
  }

  lemma {:induction false} RefusedWasAsked(session: Session, run: seq<Replies>, n: nat, c: Counter)
    requires n <= |run| && c in At(session, run, n).refused
    ensures Asks(session, COUNTERS, c)
    decreases n
  {
    AtStart(session, run);
    hide At, Step, Slot, Asks;
    if n > 0 {
      AtSteps(session, run, n);
      StepAsksCounter(session, At(session, run, n - 1), run[n - 1], c);
      if c in At(session, run, n - 1).refused {
        RefusedWasAsked(session, run, n - 1, c);
      }
    }
  }

  /** Every publish that is not stale shows a dash for each counter refused by then. */
  lemma RefusedCountersShowADash(session: Session, run: seq<Replies>, n: nat, c: Counter)
    requires 0 < n <= |run| && c in At(session, run, n).refused && !At(session, run, n).previous.stale
    ensures Slot(At(session, run, n).previous, c) == None
  {
    hide At, Step, Slot, Asks;
    AtSteps(session, run, n);
    StepNumbersCounter(session, At(session, run, n - 1), run[n - 1], c);
    RefusedWasAsked(session, run, n, c);
    if session.cluster.Some? {
      PinnedClustersAreNotAsked(session);
    }
  }

  /** A stale publish repeats the last one that was not, in all seven slots. */
  lemma {:induction false} StalePublishRepeats(session: Session, run: seq<Replies>, n: nat) returns (k: nat)
    requires n <= |run|
    ensures k <= n && !At(session, run, k).previous.stale
    ensures forall i :: k < i <= n ==> At(session, run, i).previous.stale
    ensures At(session, run, n).previous == At(session, run, k).previous.(stale := k < n)
    decreases n
  {
    AtStart(session, run);
    hide At, Step, Slot, Asks;
    if !At(session, run, n).previous.stale {
      k := n;
    } else {
      AtSteps(session, run, n);
      StepNumbersCounter(session, At(session, run, n - 1), run[n - 1], Clusters);
      k := StalePublishRepeats(session, run, n - 1);
    }
  }

  /** Cycle `i` asked this counter and was answered this number. */
  predicate AnsweredAt(session: Session, run: seq<Replies>, i: nat, c: Counter, number: nat)
    requires i < |run|
  {
    c in At(session, run, i + 1).asked && run[i](c) == Page(Some(number))
  }

  /** Every number shown was answered for that same counter in some cycle so far, or is the one
      cluster of a pinned session. */
  lemma {:induction false} NumbersWereAnswered(session: Session, run: seq<Replies>, n: nat, c: Counter) returns (i: nat)
    requires n <= |run| && Slot(At(session, run, n).previous, c).Some?
    ensures var number := Slot(At(session, run, n).previous, c).value;
            || (session.cluster.Some? && c == Clusters && number == 1)
            || (i < n && AnsweredAt(session, run, i, c, number))
    decreases n
  {
    AtStart(session, run);
    assert Slot(NO_STATS, c) == None;
    hide At, Step, Slot, Asks;
    i := n - 1;
    AtSteps(session, run, n);
    StepNumbersCounter(session, At(session, run, n - 1), run[n - 1], c);
    if Slot(At(session, run, n).previous, c) == Slot(At(session, run, n - 1).previous, c) {
      i := NumbersWereAnswered(session, run, n - 1, c);
    }
  }
}
