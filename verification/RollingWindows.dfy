/**
 * The limiter's windows are aligned to the clock. What that means for spans of time that are not:
 * a bound on every span for every payer, whatever the capacities, and on the share one caller can
 * take of what everyone shares.
 */
module RollingWindows {
  import opened Prelude
  import opened Scope
  import opened TokenBuckets
  import opened Observe
  import opened ObserveRuns
  import opened ZeroCapacity

  /** Whose budget is looked at. */
  datatype Payer = Session(name: string) | Source(ip: IpAddr) | Anyone

  function WindowMs(p: Payer): nat {
    if p.Anyone? then GLOBAL_WINDOW_MS else SESSION_SOURCE_WINDOW_MS
  }

  /** What the payer's budget is worth in one window: its capacity, or one if that is zero. */
  function Allowance(cfg: Config, p: Payer): u32 {
    Refill(if p.Anyone? then cfg.globalCapacity else cfg.capacity)
  }

  predicate Pays(p: Payer, e: Entry) {
    e.granted &&
    match p
    case Session(s) => e.session == s
    case Source(a) => e.source == a
    case Anyone => true
  }

  predicate PaidWithin(p: Payer, e: Entry, from: nat, until: nat) {
    Pays(p, e) && from <= e.nowMs < until
  }

  /** Grants to `p` at times `from <= t < until`. */
  function GrantsDuring(log: seq<Entry>, p: Payer, from: nat, until: nat): nat {
    if log == [] then 0
    else GrantsDuring(Front(log), p, from, until) + if PaidWithin(p, Last(log), from, until) then 1 else 0
  }

  // ----- the clock -----

  function WindowOf(p: Payer, t: nat): nat {
    if p.Anyone? then t / GLOBAL_WINDOW_MS else t / SESSION_SOURCE_WINDOW_MS
  }

  /** How many aligned windows the span meets. */
  function WindowsMet(p: Payer, from: nat, until: nat): (n: nat)
    requires from < until
    ensures n >= 1
  {
    WindowMonotone(p, from, until - 1);
    WindowOf(p, until - 1) - WindowOf(p, from) + 1
  }

  lemma WindowMonotone(p: Payer, t: nat, t': nat)
    requires t <= t'
    ensures WindowOf(p, t) <= WindowOf(p, t')
  {
  }

  lemma MinuteIs(t: nat, m: nat)
    requires 60_000 * m <= t < 60_000 * m + 60_000
    ensures t / 60_000 == m
  {
  }

  lemma SecondIs(t: nat, s: nat)
    requires 1_000 * s <= t < 1_000 * s + 1_000
    ensures t / 1_000 == s
  {
  }

  /** A span of `length` meets at most one window more than it could fill. */
  lemma FewWindowsMet(p: Payer, from: nat, length: nat)
    requires length >= 1
    ensures WindowsMet(p, from, from + length) <= (length - 1) / WindowMs(p) + 2
  {
    if p.Anyone? {
      var w, v := from / 1_000, (length - 1) / 1_000;
      WindowMonotone(p, from + length - 1, 1_000 * (w + v + 1) + 999);
      SecondIs(1_000 * (w + v + 1) + 999, w + v + 1);
    } else {
      var w, v := from / 60_000, (length - 1) / 60_000;
      WindowMonotone(p, from + length - 1, 60_000 * (w + v + 1) + 59_999);
      MinuteIs(60_000 * (w + v + 1) + 59_999, w + v + 1);
    }
  }

  // ----- any span, by the aligned windows it meets -----

  function BudgetAt(p: Payer, w: nat): Budget {
    match p
    case Session(s) => OfSession(s, w)
    case Source(a) => OfSource(a, w)
    case Anyone => OfSecond(w)
  }

  /** How often the bucket of `p` was thrown out during its window `w`; the global one never is. */
  function EvictionsAt(cfg: Config, calls: seq<Call>, p: Payer, w: nat): nat {
    match p
    case Session(s) => Evictions(SessionAsks(cfg, calls), s, w)
    case Source(a) => Evictions(SourceAsks(cfg, calls), a, w)
    case Anyone => 0
  }

  /** The same over `n` windows from `first` on. */
  function EvictionsOver(cfg: Config, calls: seq<Call>, p: Payer, first: nat, n: nat): nat {
    if n == 0 then 0 else EvictionsOver(cfg, calls, p, first, n - 1) + EvictionsAt(cfg, calls, p, first + n - 1)
  }

  function SpentOver(log: seq<Entry>, p: Payer, first: nat, n: nat): nat {
    if n == 0 then 0 else SpentOver(log, p, first, n - 1) + Spent(log, BudgetAt(p, first + n - 1))
  }

  lemma {:induction false} NothingSpent(p: Payer, first: nat, n: nat)
    ensures SpentOver([], p, first, n) == 0
  {
    if n > 0 {
      NothingSpent(p, first, n - 1);
    }
  }

  lemma {:induction false} SpentOverLast(log: seq<Entry>, p: Payer, first: nat, n: nat)
    requires log != []
    ensures var e := Last(log);
            SpentOver(log, p, first, n) == SpentOver(Front(log), p, first, n)
              + if Pays(p, e) && first <= WindowOf(p, e.nowMs) < first + n then 1 else 0
  {
    hide Pays, WindowOf, Charges, BudgetAt;
    if n > 0 {
      SpentOverLast(log, p, first, n - 1);
      ChargedInItsWindow(p, first + n - 1, Last(log));
    }
  }

  lemma ChargedInItsWindow(p: Payer, w: nat, e: Entry)
    ensures Charges(BudgetAt(p, w), e) <==> Pays(p, e) && WindowOf(p, e.nowMs) == w
  {
  }

  /** What a span sees is charged to the windows it meets. */
  lemma {:induction false} SpanIsCovered(log: seq<Entry>, p: Payer, from: nat, until: nat)
    requires from < until
    ensures GrantsDuring(log, p, from, until) <= SpentOver(log, p, WindowOf(p, from), WindowsMet(p, from, until))
  {
    hide Pays, WindowOf, BudgetAt;
    if log == [] {
      NothingSpent(p, WindowOf(p, from), WindowsMet(p, from, until));
    } else {
      var t := Last(log).nowMs;
      SpanIsCovered(Front(log), p, from, until);
      SpentOverLast(log, p, WindowOf(p, from), WindowsMet(p, from, until));
      if from <= t < until {
        WindowMonotone(p, from, t);
        WindowMonotone(p, t, until - 1);
      }
    }
  }

  /** One window: the allowance, and once more for every eviction. */
  lemma WindowBound(cfg: Config, calls: seq<Call>, p: Payer, w: nat)
    requires IsTrace(cfg, calls) && CalledInOrder(calls)
    ensures Spent(Log(cfg, calls), BudgetAt(p, w)) <= Times(Allowance(cfg, p), EvictionsAt(cfg, calls, p, w) + 1)
  {
    hide Log, Spent, Evictions, IsTrace, CalledInOrder, Times, Refill;
    match p
    case Session(s) => SessionWindow(cfg, calls, s, w);
    case Source(a) => SourceWindow(cfg, calls, a, w);
    case Anyone => SecondWindow(cfg, calls, w);
  }

  lemma GrantsWithinRefill<K>(capacity: u32, asks: seq<Ask<K>>, key: K, w: nat)
    requires IsRun(capacity, asks) && AskedInOrder(asks)
    ensures Grants(asks, key, w) <= Times(Refill(capacity), Evictions(asks, key, w) + 1)
  {
    hide IsRun, AskedInOrder, Grants, Evictions, After;
    if capacity == 0 {
      ZeroGrantsOnce(asks, key, w);
    } else {
      GrantsWithinTimes(capacity, asks, key, w);
    }
  }

  lemma SessionWindow(cfg: Config, calls: seq<Call>, session: string, w: nat)
    requires IsTrace(cfg, calls) && CalledInOrder(calls)
    ensures Spent(Log(cfg, calls), OfSession(session, w))
         <= Times(Refill(cfg.capacity), Evictions(SessionAsks(cfg, calls), session, w) + 1)
  {
    hide *;
    SessionsProject(cfg, calls);
    AsksInOrder(cfg, calls);
    GrantsWithinRefill(cfg.capacity, SessionAsks(cfg, calls), session, w);
    SessionCountsAgree(cfg, calls, session, w);
  }

  lemma SourceWindow(cfg: Config, calls: seq<Call>, source: IpAddr, w: nat)
    requires IsTrace(cfg, calls) && CalledInOrder(calls)
    ensures Spent(Log(cfg, calls), OfSource(source, w))
         <= Times(Refill(cfg.capacity), Evictions(SourceAsks(cfg, calls), source, w) + 1)
  {
    hide *;
    SourcesProject(cfg, calls);
    AsksInOrder(cfg, calls);
    GrantsWithinRefill(cfg.capacity, SourceAsks(cfg, calls), source, w);
    SourceCountsAgree(cfg, calls, source, w);
  }

  lemma SecondWindow(cfg: Config, calls: seq<Call>, w: nat)
    requires IsTrace(cfg, calls) && CalledInOrder(calls)
    ensures Spent(Log(cfg, calls), OfSecond(w)) <= Times(Refill(cfg.globalCapacity), 1)
  {
    hide Log, Spent, IsTrace, CalledInOrder;
    if cfg.globalCapacity == 0 {
      ZeroGlobalOnce(cfg, calls, w);
    } else {
      GlobalBound(cfg, calls, w);
    }
  }

  lemma {:induction false} WindowsBound(cfg: Config, calls: seq<Call>, p: Payer, first: nat, n: nat)
    requires IsTrace(cfg, calls) && CalledInOrder(calls)
    ensures SpentOver(Log(cfg, calls), p, first, n)
         <= Times(Allowance(cfg, p), n + EvictionsOver(cfg, calls, p, first, n))
  {
    hide Log, Spent, EvictionsAt, IsTrace, CalledInOrder, Allowance;
    if n > 0 {
      var before, now := EvictionsOver(cfg, calls, p, first, n - 1), EvictionsAt(cfg, calls, p, first + n - 1);
      WindowsBound(cfg, calls, p, first, n - 1);
      WindowBound(cfg, calls, p, first + n - 1);
      TimesAdds(Allowance(cfg, p), n - 1 + before, now + 1);
    }
  }

  lemma {:induction false} TimesAdds(capacity: u32, m: nat, n: nat)
    ensures Times(capacity, m + n) == Times(capacity, m) + Times(capacity, n)
  {
    if n > 0 {
      TimesAdds(capacity, m, n - 1);
    }
  }

  /**
   * Over every run, whoever is evicted and whatever the capacities: a span grants a payer at most
   * its allowance once for every window the span meets and once more for every eviction of its
   * bucket in them.
   */
  lemma SpanBound(cfg: Config, calls: seq<Call>, p: Payer, from: nat, length: nat)
    requires IsTrace(cfg, calls) && CalledInOrder(calls) && length >= 1
    ensures var n := WindowsMet(p, from, from + length);
            && n <= (length - 1) / WindowMs(p) + 2
            && GrantsDuring(Log(cfg, calls), p, from, from + length)
               <= Allowance(cfg, p) * (n + EvictionsOver(cfg, calls, p, WindowOf(p, from), n))
  {
    hide Log, EvictionsOver, SpentOver, GrantsDuring, Times, IsTrace, CalledInOrder, WindowsMet, WindowMs, Allowance;
    var n := WindowsMet(p, from, from + length);
    FewWindowsMet(p, from, length);
    SpanIsCovered(Log(cfg, calls), p, from, from + length);
    WindowsBound(cfg, calls, p, WindowOf(p, from), n);
    TimesIsProduct(Allowance(cfg, p), n + EvictionsOver(cfg, calls, p, WindowOf(p, from), n));
  }

  // ----- while nobody is evicted -----

  lemma {:induction false} NoVictimNoEviction<K>(asks: seq<Ask<K>>, key: K, w: nat)
    requires NoEvictions(asks)
    ensures Evictions(asks, key, w) == 0
  {
    if asks != [] {
      NoVictimNoEviction(Front(asks), key, w);
    }
  }

  lemma {:induction false} NobodyNeverEvicted(cfg: Config, calls: seq<Call>, p: Payer, first: nat, n: nat)
    requires NobodyEvicted(calls)
    ensures EvictionsOver(cfg, calls, p, first, n) == 0
  {
    if n > 0 {
      NobodyNeverEvicted(cfg, calls, p, first, n - 1);
      NoVictimsNoEvictions(cfg, calls);
      match p
      case Session(s) => NoVictimNoEviction(SessionAsks(cfg, calls), s, first + n - 1);
      case Source(a) => NoVictimNoEviction(SourceAsks(cfg, calls), a, first + n - 1);
      case Anyone =>
    }
  }

  /** Only the windows met count. */
  lemma MetBound(cfg: Config, calls: seq<Call>, p: Payer, from: nat, until: nat)
    requires IsTrace(cfg, calls) && CalledInOrder(calls) && NobodyEvicted(calls) && from < until
    ensures GrantsDuring(Log(cfg, calls), p, from, until) <= Times(Allowance(cfg, p), WindowsMet(p, from, until))
  {
    hide Log, EvictionsOver, GrantsDuring, IsTrace, CalledInOrder, NobodyEvicted, Times, Allowance, WindowsMet,
         WindowOf, SpentOver;
    SpanIsCovered(Log(cfg, calls), p, from, until);
    WindowsBound(cfg, calls, p, WindowOf(p, from), WindowsMet(p, from, until));
    NobodyNeverEvicted(cfg, calls, p, WindowOf(p, from), WindowsMet(p, from, until));
  }

  lemma {:induction false} NoMoreThanAnyone(log: seq<Entry>, p: Payer, from: nat, until: nat)
    ensures GrantsDuring(log, p, from, until) <= GrantsDuring(log, Anyone, from, until)
  {
    if log != [] {
      NoMoreThanAnyone(Front(log), p, from, until);
    }
  }

  lemma {:induction false} SpanSplits(log: seq<Entry>, p: Payer, from: nat, at: nat, until: nat)
    requires from <= at <= until
    ensures GrantsDuring(log, p, from, until) == GrantsDuring(log, p, from, at) + GrantsDuring(log, p, at, until)
  {
    hide Pays;
    if log != [] {
      SpanSplits(Front(log), p, from, at, until);
    }
  }

  /** A span in which nothing is granted. */
  lemma {:induction false} QuietSpan(log: seq<Entry>, p: Payer, from: nat, until: nat)
    requires forall e :: e in log && e.granted ==> !(from <= e.nowMs < until)
    ensures GrantsDuring(log, p, from, until) == 0
  {
    if log != [] {
      assert Last(log) in log;
      QuietSpan(Front(log), p, from, until);
    }
  }

  // ----- the minute from any moment on -----

  function Min(a: nat, b: nat): nat {
    if a <= b then a else b
  }

  function Max(a: nat, b: nat): nat {
    if a <= b then b else a
  }

  /** The first aligned minute to begin after `from`. */
  function Boundary(from: nat): nat {
    (from / SESSION_SOURCE_WINDOW_MS + 1) * SESSION_SOURCE_WINDOW_MS
  }

  lemma BoundaryIsNear(from: nat)
    ensures from < Boundary(from) <= from + SESSION_SOURCE_WINDOW_MS
    ensures Boundary(from) == from + SESSION_SOURCE_WINDOW_MS <==> from % SESSION_SOURCE_WINDOW_MS == 0
    ensures forall t :: from <= t < Boundary(from) ==> t / SESSION_SOURCE_WINDOW_MS == from / SESSION_SOURCE_WINDOW_MS
    ensures forall t :: Boundary(from) <= t < from + SESSION_SOURCE_WINDOW_MS ==>
              t / SESSION_SOURCE_WINDOW_MS == from / SESSION_SOURCE_WINDOW_MS + 1
  {
    var m := from / 60_000;
    assert from == 60_000 * m + from % 60_000;
    forall t | from <= t < Boundary(from) ensures t / SESSION_SOURCE_WINDOW_MS == m {
      MinuteIs(t, m);
    }
    forall t | Boundary(from) <= t < from + SESSION_SOURCE_WINDOW_MS ensures t / SESSION_SOURCE_WINDOW_MS == m + 1 {
      MinuteIs(t, m + 1);
    }
  }

  /** The most a caller can be granted in a part of one aligned minute. */
  function Part(cfg: Config, from: nat, until: nat): nat {
    if from < until
    then Min(Refill(cfg.capacity), Times(Refill(cfg.globalCapacity), WindowsMet(Anyone, from, until)))
    else 0
  }

  /** The moment from which on grants are possible in the minute from `from` on. */
  function Opening(cfg: Config, from: nat): nat {
    Max(from, Earliest(cfg))
  }

  /** What is left of the aligned minute `from` lies in, and what the next one adds. */
  function Most(cfg: Config, from: nat): nat {
    Part(cfg, Opening(cfg, from), Boundary(from))
    + Part(cfg, Max(Opening(cfg, from), Boundary(from)), from + SESSION_SOURCE_WINDOW_MS)
  }

  lemma PartBound(cfg: Config, calls: seq<Call>, p: Payer, from: nat, until: nat)
    requires IsTrace(cfg, calls) && CalledInOrder(calls) && NobodyEvicted(calls) && !p.Anyone?
    requires from < until ==> (until - 1) / SESSION_SOURCE_WINDOW_MS == from / SESSION_SOURCE_WINDOW_MS
    ensures from <= until ==> GrantsDuring(Log(cfg, calls), p, from, until) <= Part(cfg, from, until)
  {
    hide Log, IsTrace, CalledInOrder, NobodyEvicted, GrantsDuring, Refill;
    if from < until {
      MetBound(cfg, calls, p, from, until);
      MetBound(cfg, calls, Anyone, from, until);
      NoMoreThanAnyone(Log(cfg, calls), p, from, until);
      assert WindowsMet(p, from, until) == 1;
    } else if from == until {
      QuietSpan(Log(cfg, calls), p, from, until);
    }
  }

  /** While nobody is evicted, no session and no source gets more than that. */
  lemma MinuteBound(cfg: Config, calls: seq<Call>, p: Payer, from: nat)
    requires IsTrace(cfg, calls) && CalledInOrder(calls) && NobodyEvicted(calls) && !p.Anyone?
    ensures GrantsDuring(Log(cfg, calls), p, from, from + SESSION_SOURCE_WINDOW_MS) <= Most(cfg, from)
  {
    hide Log, IsTrace, CalledInOrder, NobodyEvicted, GrantsDuring, Part, Boundary, Earliest;
    var log, b, until := Log(cfg, calls), Boundary(from), from + SESSION_SOURCE_WINDOW_MS;
    var open := Opening(cfg, from);
    NothingEarly(cfg, calls);
    if until <= open {
      QuietSpan(log, p, from, until);
    } else {
      BoundaryIsNear(from);
      QuietSpan(log, p, from, open);
      SpanSplits(log, p, from, open, until);
      if open < b {
        SpanSplits(log, p, open, b, until);
        PartBound(cfg, calls, p, open, b);
      }
      PartBound(cfg, calls, p, Max(open, b), until);
    }
  }

  // ----- what one caller can take of what everyone shares -----

  /** The session, or the source, an entry was charged to. */
  function PayerOf(bySource: bool, e: Entry): Payer {
    if bySource then Source(e.source) else Session(e.session)
  }

  /** Everyone granted something in the second. */
  ghost function PayersIn(log: seq<Entry>, bySource: bool, second: nat): set<Payer> {
    set e | e in log && Charges(OfSecond(second), e) :: PayerOf(bySource, e)
  }

  /** Grants of the second to any of `payers`. */
  function GrantsTo(log: seq<Entry>, bySource: bool, payers: set<Payer>, second: nat): nat {
    if log == [] then 0
    else GrantsTo(Front(log), bySource, payers, second)
         + if Charges(OfSecond(second), Last(log)) && PayerOf(bySource, Last(log)) in payers then 1 else 0
  }

  lemma {:induction false} GrantsToSplit(log: seq<Entry>, bySource: bool, payers: set<Payer>, p: Payer, second: nat)
    requires p !in payers
    ensures GrantsTo(log, bySource, payers + {p}, second)
         == GrantsTo(log, bySource, payers, second) + GrantsTo(log, bySource, {p}, second)
  {
    if log != [] {
      GrantsToSplit(Front(log), bySource, payers, p, second);
    }
  }

  lemma {:induction false} GrantsToNobody(log: seq<Entry>, bySource: bool, second: nat)
    ensures GrantsTo(log, bySource, {}, second) == 0
  {
    if log != [] {
      GrantsToNobody(Front(log), bySource, second);
    }
  }

  lemma {:induction false} GrantsToOne(log: seq<Entry>, bySource: bool, p: Payer, second: nat)
    requires !p.Anyone?
    ensures GrantsTo(log, bySource, {p}, second) <= GrantsDuring(log, p, 1_000 * second, 1_000 * second + 1_000)
  {
    if log != [] {
      GrantsToOne(Front(log), bySource, p, second);
      InSecond(Last(log).nowMs, second);
    }
  }

  lemma InSecond(t: nat, second: nat)
    ensures t / 1_000 == second <==> 1_000 * second <= t < 1_000 * second + 1_000
  {
  }

  lemma {:induction false} GrantsToAll(log: seq<Entry>, bySource: bool, payers: set<Payer>, second: nat)
    requires forall e :: e in log && Charges(OfSecond(second), e) ==> PayerOf(bySource, e) in payers
    ensures GrantsTo(log, bySource, payers, second) == Spent(log, OfSecond(second))
  {
    if log != [] {
      assert Last(log) in log;
      GrantsToAll(Front(log), bySource, payers, second);
    }
  }

  lemma OneSecondOneMinute(p: Payer, second: nat)
    requires !p.Anyone?
    ensures WindowsMet(p, 1_000 * second, 1_000 * second + 1_000) == 1
  {
    var m, s := second / 60, second % 60;
    assert 1_000 * second == 60_000 * m + 1_000 * s;
    MinuteIs(1_000 * second, m);
    MinuteIs(1_000 * second + 999, m);
  }

  lemma {:induction false} GrantsToMany(cfg: Config, calls: seq<Call>, bySource: bool, payers: set<Payer>, second: nat)
    requires IsTrace(cfg, calls) && CalledInOrder(calls) && NobodyEvicted(calls) && Anyone !in payers
    ensures GrantsTo(Log(cfg, calls), bySource, payers, second) <= Times(Refill(cfg.capacity), |payers|)
    decreases |payers|
  {
    hide Log, IsTrace, CalledInOrder, NobodyEvicted, GrantsTo, GrantsDuring, Refill;
    var log := Log(cfg, calls);
    if payers == {} {
      GrantsToNobody(log, bySource, second);
    } else {
      var p :| p in payers;
      var others := payers - {p};
      assert payers == others + {p};
      GrantsToMany(cfg, calls, bySource, others, second);
      GrantsToSplit(log, bySource, others, p, second);
      GrantsToOne(log, bySource, p, second);
      OneSecondOneMinute(p, second);
      MetBound(cfg, calls, p, 1_000 * second, 1_000 * second + 1_000);
    }
  }

  /**
   * A second's grants are at most the narrow capacity times the number of sessions, and times the
   * number of sources, that had any of them: to use up the global budget takes that many callers.
   */
  lemma SharedSecond(cfg: Config, calls: seq<Call>, bySource: bool, second: nat)
    requires IsTrace(cfg, calls) && CalledInOrder(calls) && NobodyEvicted(calls)
    ensures Spent(Log(cfg, calls), OfSecond(second))
         <= Refill(cfg.capacity) * |PayersIn(Log(cfg, calls), bySource, second)|
  {
    hide Log, IsTrace, CalledInOrder, NobodyEvicted, Spent, Charges, Refill;
    var payers := PayersIn(Log(cfg, calls), bySource, second);
    GrantsToAll(Log(cfg, calls), bySource, payers, second);
    GrantsToMany(cfg, calls, bySource, payers, second);
    TimesIsProduct(Refill(cfg.capacity), |payers|);
  }
}
