/**
 What one cycle of the counters publishes, counter by counter, in terms of what the server answered
 (`cycle`, `fold` and `is_refusal` in `crates/core/src/stats.rs`).
 */
module StatsMeaning {
  import opened Wrappers
  import opened Stats

  // ---- in the session's and the server's own terms ----

  /** The kind a counter counts. */
  function KindOf(c: Counter): string {
    match c
    case Clusters => "clustermgmt.config.Cluster"
    case Hosts => "clustermgmt.config.Host"
    case Vms => "vmm.ahv.config.Vm"
    case VmsOn => "vmm.ahv.config.Vm"
    case AlertsCritical => "monitoring.serviceability.Alert"
    case AlertsWarning => "monitoring.serviceability.Alert"
    case TasksRunning => "prism.config.Task"
  }

  /** The counters of one cluster's own rows, and those that count only some rows of their kind. */
  predicate HasScope(c: Counter) { c.Vms? || c.VmsOn? || c.AlertsCritical? || c.AlertsWarning? }

  predicate HasFilter(c: Counter) { c.VmsOn? || c.AlertsCritical? || c.AlertsWarning? || c.TasksRunning? }

  /** The server has the kind, a pinned cluster can be asked about, and the kind takes the filter that the
      counter or the pin needs. */
  predicate MayAsk(session: Session, c: Counter) {
    && KindOf(c) in session.kinds && session.kinds[KindOf(c)].served
    && (session.cluster.Some? ==> HasScope(c))
    && (HasFilter(c) || session.cluster.Some? ==> session.kinds[KindOf(c)].takesFilter)
  }

  /** The errors after which a counter is never asked again. */
  predicate IsLasting(e: PrismError) {
    match e
    case Auth => true
    case Denied => true
    case Forbidden => true
    case NotFound => true
    case Api(status) => 399 < status < 500
    case RateLimited => false
    case Transport => false
    case Other => false
  }

  /** What a counter shows after a cycle that got an answer, or asked nothing. */
  function ShownAfter(session: Session, p: Polled, replies: Replies, c: Counter): Count {
    if session.cluster.Some? && c == Clusters then Some(1)
    else if c in p.refused || !MayAsk(session, c) then None
    else match replies(c)
      case Page(total) => total
      case Failed(e) => if IsLasting(e) then None else Slot(p.previous, c)
  }

  // ---- one turn, and all of them ----

  predicate AsksNow(session: Session, c: Cycle, def: CounterDef) {
    def.counter !in c.refused && PlanFor(session, def).Ask?
  }

  function SlotOf(session: Session, c: Cycle, def: CounterDef, replies: Replies): Count {
    if !AsksNow(session, c, def) then None
    else match replies(def.counter)
      case Page(total) => total
      case Failed(e) => if IsLasting(e) then None else Slot(c.stats, def.counter)
  }

  /** A turn is about one counter. */
  lemma TurnIs(session: Session, c: Cycle, def: CounterDef, replies: Replies, d: Counter)
    ensures var r := Turn(session, c, def, replies);
            var asks := AsksNow(session, c, def);
            && (d == def.counter ==>
                  (d in r.asked <==> d in c.asked || asks) &&
                  (d in r.refused <==> d in c.refused || (asks && replies(d).Failed? && IsLasting(replies(d).error))) &&
                  Slot(r.stats, d) == SlotOf(session, c, def, replies))
            && (d != def.counter ==>
                  (d in r.asked <==> d in c.asked) && (d in r.refused <==> d in c.refused) &&
                  Slot(r.stats, d) == Slot(c.stats, d))
            && (r.answered <==> c.answered || (asks && replies(def.counter).Page?))
            && (r.asked != [] <==> c.asked != [] || asks)
            && r.stats.stale == c.stats.stale
  {
    hide PlanFor, Slot;
  }

  lemma {:induction false} UnlistedStay(session: Session, c: Cycle, defs: seq<CounterDef>, replies: Replies, d: Counter)
    requires !Lists(defs, d)
    ensures var r := Turns(session, c, defs, replies);
            && (d in r.asked <==> d in c.asked) && (d in r.refused <==> d in c.refused)
            && Slot(r.stats, d) == Slot(c.stats, d)
    decreases |defs|
  {
    if defs != [] {
      ListsStep(defs, d);
      TurnIs(session, c, defs[0], replies, d);
      UnlistedStay(session, Turn(session, c, defs[0], replies), defs[1..], replies, d);
      hide Turn, Lists, Slot;
    }
  }

  /** All turns together do to a counter what its own turn does. */
  lemma {:induction false} TurnsAre(session: Session, c: Cycle, defs: seq<CounterDef>, replies: Replies, k: nat)
    requires Distinct(defs) && k < |defs|
    ensures var r, def := Turns(session, c, defs, replies), defs[k];
            var d, asks := def.counter, AsksNow(session, c, def);
            && (d in r.asked <==> d in c.asked || asks)
            && (d in r.refused <==> d in c.refused || (asks && replies(d).Failed? && IsLasting(replies(d).error)))
            && Slot(r.stats, d) == SlotOf(session, c, def, replies)
    decreases |defs|
  {
    var c1 := Turn(session, c, defs[0], replies);
    var d := defs[k].counter;
    DistinctRest(defs);
    TurnIs(session, c, defs[0], replies, d);
    if k == 0 {
      UnlistedStay(session, c1, defs[1..], replies, d);
    } else {
      assert defs[1..][k - 1] == defs[k] && defs[0].counter != d;
      TurnsAre(session, c1, defs[1..], replies, k - 1);
    }
    hide Turn, Lists, Distinct, Slot, PlanFor;
  }

  ghost predicate AnyAsked(session: Session, c: Cycle, defs: seq<CounterDef>) {
    exists i :: 0 <= i < |defs| && AsksNow(session, c, defs[i])
  }

  ghost predicate AnyAnswered(session: Session, c: Cycle, defs: seq<CounterDef>, replies: Replies) {
    exists i :: 0 <= i < |defs| && AsksNow(session, c, defs[i]) && replies(defs[i].counter).Page?
  }

  lemma {:induction false} TurnsAnswer(session: Session, c: Cycle, defs: seq<CounterDef>, replies: Replies)
    requires Distinct(defs)
    ensures var r := Turns(session, c, defs, replies);
            && (r.answered <==> (c.answered || AnyAnswered(session, c, defs, replies)))
            && (r.asked != [] <==> (c.asked != [] || AnyAsked(session, c, defs)))
            && r.stats.stale == c.stats.stale
    decreases |defs|
  {
    if defs != [] {
      var c1, rest := Turn(session, c, defs[0], replies), defs[1..];
      DistinctRest(defs);
      TurnsAnswer(session, c1, rest, replies);
      TurnIs(session, c, defs[0], replies, defs[0].counter);
      forall i | 0 <= i < |rest|
        ensures rest[i] == defs[i + 1] && (AsksNow(session, c1, rest[i]) <==> AsksNow(session, c, rest[i]))
      {
        ListedElsewhere(rest, i);
        TurnIs(session, c, defs[0], replies, rest[i].counter);
      }
      hide Turn, Lists, Distinct, PlanFor, AsksNow, Slot, AnyAsked, AnyAnswered;
      AnyBehind(session, c, defs, replies);
    }
  }

  lemma ListedElsewhere(defs: seq<CounterDef>, i: nat)
    requires i < |defs|
    ensures Lists(defs, defs[i].counter)
  {}

  lemma AnyBehind(session: Session, c: Cycle, defs: seq<CounterDef>, replies: Replies)
    requires defs != []
    ensures AnyAsked(session, c, defs) <==> (AsksNow(session, c, defs[0]) || AnyAsked(session, c, defs[1..]))
    ensures AnyAnswered(session, c, defs, replies) <==>
              ((AsksNow(session, c, defs[0]) && replies(defs[0].counter).Page?) ||
               AnyAnswered(session, c, defs[1..], replies))
  {
    hide AsksNow;
    var rest := defs[1..];
    assert forall i :: 1 <= i < |defs| ==> defs[i] == rest[i - 1];
    if exists i :: 0 <= i < |rest| && AsksNow(session, c, rest[i]) {
      var i :| 0 <= i < |rest| && AsksNow(session, c, rest[i]);
      assert AsksNow(session, c, defs[i + 1]);
    }
    if exists i :: 0 <= i < |rest| && AsksNow(session, c, rest[i]) && replies(rest[i].counter).Page? {
      var i :| 0 <= i < |rest| && AsksNow(session, c, rest[i]) && replies(rest[i].counter).Page?;
      assert AsksNow(session, c, defs[i + 1]) && replies(defs[i + 1].counter).Page?;
    }
  }

  // ---- the seven counters ----

  /** Where a counter stands in the table. */
  function Place(c: Counter): (i: nat)
    ensures i < |COUNTERS| && COUNTERS[i].counter == c
  {
    match c
    case Clusters => 0
    case Hosts => 1
    case Vms => 2
    case VmsOn => 3
    case AlertsCritical => 4
    case AlertsWarning => 5
    case TasksRunning => 6
  }

  lemma PlansAre(session: Session, c: Counter)
    ensures PlanFor(session, COUNTERS[Place(c)]).Ask? <==> MayAsk(session, c)
  {
    hide AlertFilter, ScopeOn;
  }

  lemma PlacesAreAll(i: nat)
    requires i < |COUNTERS|
    ensures Place(COUNTERS[i].counter) == i
  {}

  /** After a cycle: which counters were asked, which are dropped, what each shows, and when it is stale. */
  lemma StepShows(session: Session, p: Polled, replies: Replies)
    ensures var q := Step(session, p, replies);
            && (forall c :: c in q.asked <==> c !in p.refused && MayAsk(session, c))
            && (forall c :: c in q.refused <==>
                  c in p.refused || (c in q.asked && replies(c).Failed? && IsLasting(replies(c).error)))
            && (q.previous.stale <==> q.asked != [] && forall c :: c in q.asked ==> replies(c).Failed?)
            && (forall c :: Slot(q.previous, c) ==
                  if q.previous.stale then Slot(p.previous, c) else ShownAfter(session, p, replies, c))
  {
    var begin := Cycle(p.previous.(stale := false), p.refused, [], false);
    var r := Turns(session, begin, COUNTERS, replies);
    var q := Step(session, p, replies);
    EveryCounterIsListedOnce(Clusters);
    TurnsAnswer(session, begin, COUNTERS, replies);
    assert q.asked == r.asked && q.refused == r.refused;
    hide Turns, PlanFor, COUNTERS, Distinct, Lists;
    forall c
      ensures c in r.asked <==> c !in p.refused && MayAsk(session, c)
      ensures c in r.refused <==>
                c in p.refused || (c in r.asked && replies(c).Failed? && IsLasting(replies(c).error))
      ensures Slot(Pinned(session, r.stats), c) == ShownAfter(session, p, replies, c)
      ensures AsksNow(session, begin, COUNTERS[Place(c)]) <==> c in r.asked
    {
      PlansAre(session, c);
      TurnsAre(session, begin, COUNTERS, replies, Place(c));
      SlotsAround(session, p.previous, r.stats, c);
    }
    AnsweredMeans(session, begin, replies, r.asked);
    forall c
      ensures Slot(q.previous, c) ==
                if q.previous.stale then Slot(p.previous, c) else ShownAfter(session, p, replies, c)
    {
      SlotsAround(session, p.previous, r.stats, c);
    }
  }

  lemma AnsweredMeans(session: Session, begin: Cycle, replies: Replies, asked: seq<Counter>)
    requires forall c :: AsksNow(session, begin, COUNTERS[Place(c)]) <==> c in asked
    ensures AnyAnswered(session, begin, COUNTERS, replies) <==> exists c :: c in asked && replies(c).Page?
  {
    hide AsksNow, COUNTERS, Place;
    if i :| 0 <= i < |COUNTERS| && AsksNow(session, begin, COUNTERS[i]) && replies(COUNTERS[i].counter).Page? {
      PlacesAreAll(i);
      assert COUNTERS[i].counter in asked;
    }
    if c :| c in asked && replies(c).Page? {
      assert AsksNow(session, begin, COUNTERS[Place(c)]);
    }
  }
}
