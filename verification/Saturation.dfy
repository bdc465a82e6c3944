/**
 * A caller who has the limiter to itself can get everything the bounds on spans leave open. So the
 * bounds are exact: how much a minute may grant that is not aligned, when the promise of rolling
 * minutes holds, and when one caller alone can use up what everyone shares.
 */
module Saturation {
  import opened Prelude
  import opened Scope
  import opened TokenBuckets
  import opened Observe
  import opened ObserveRuns
  import opened ZeroCapacity
  import opened RollingWindows

  const CLOCK_END: nat := 0x1_0000_0000_0000_0000

  /** A session and the folded address it is connected from. */
  datatype Caller = Caller(session: string, source: IpAddr)

  function AskAt(who: Caller, t: u64): Call {
    Call(Request(who.session, who.source, t), None, None)
  }

  // ----- what the caller finds in the buckets -----

  /** How often a bucket will still say yes in the window of `t`. */
  function LeftIn(b: Option<TokenBucket>, capacity: u32, t: u64, windowMs: nat): u32
    requires windowMs > 0
  {
    match b
    case None => capacity
    case Some(bucket) => if t / windowMs != bucket.window then Refill(capacity) else bucket.tokens
  }

  ghost predicate KnowsOnly<K(!new)>(m: Buckets<K>, key: K, now: nat) {
    forall k :: k in m ==> k == key && m[k].window <= now
  }

  /** The caller, the only one there ever was, has used up `x` of its minute at `t` and `y` of the second. */
  ghost predicate Ready(cfg: Config, s: State, who: Caller, t: u64, x: nat, y: nat) {
    && KnowsOnly(s.sessions, who.session, Minute(t)) && KnowsOnly(s.sources, who.source, Minute(t))
    && s.global.window <= Second(t)
    && (cfg.capacity == 0 ==> who.session in s.sessions && who.source in s.sources)
    && LeftIn(Lookup(s.sessions, who.session), cfg.capacity, t, SESSION_SOURCE_WINDOW_MS) == Refill(cfg.capacity) - x
    && LeftIn(Lookup(s.sources, who.source), cfg.capacity, t, SESSION_SOURCE_WINDOW_MS) == Refill(cfg.capacity) - x
    && LeftIn(Some(s.global), cfg.globalCapacity, t, GLOBAL_WINDOW_MS) == Refill(cfg.globalCapacity) - y
  }

  lemma FewKeys<K(!new)>(m: Buckets<K>, key: K, now: nat)
    requires KnowsOnly(m, key, now)
    ensures |m| <= 1
  {
    SubsetSize(m.Keys, {key});
    assert |m| == |m.Keys|;
  }

  /** One map, asked by the only key it knows. */
  lemma SoleAsk<K(!new)>(m: Buckets<K>, key: K, capacity: u32, t: u64)
    requires KnowsOnly(m, key, Minute(t)) && LeftIn(Lookup(m, key), capacity, t, SESSION_SOURCE_WINDOW_MS) >= 1
    ensures var r := BucketFor(m, key, capacity, t, None);
            && VictimAllowed(m, key, None)
            && r[key].Peek(t, SESSION_SOURCE_WINDOW_MS)
            && var r' := r[key := r[key].Spend(capacity, t, SESSION_SOURCE_WINDOW_MS)];
               && KnowsOnly(r', key, Minute(t)) && key in r'
               && LeftIn(Lookup(r', key), capacity, t, SESSION_SOURCE_WINDOW_MS)
                  == LeftIn(Lookup(m, key), capacity, t, SESSION_SOURCE_WINDOW_MS) - 1
  {
    FewKeys(m, key, Minute(t));
  }

  lemma SoleSecond(b: TokenBucket, capacity: u32, t: u64)
    requires b.window <= Second(t) && LeftIn(Some(b), capacity, t, GLOBAL_WINDOW_MS) >= 1
    ensures b.Peek(t, GLOBAL_WINDOW_MS)
    ensures var b' := b.Spend(capacity, t, GLOBAL_WINDOW_MS);
            b'.window == Second(t)
            && LeftIn(Some(b'), capacity, t, GLOBAL_WINDOW_MS) == LeftIn(Some(b), capacity, t, GLOBAL_WINDOW_MS) - 1
  {
  }

  /** With something left everywhere, one more ask is granted and takes one of each. */
  lemma ReadyStep(cfg: Config, s: State, who: Caller, t: u64, x: nat, y: nat)
    requires FoldIp(who.source) == who.source && Ready(cfg, s, who, t, x, y)
    requires x < Refill(cfg.capacity) && y < Refill(cfg.globalCapacity)
    ensures CallAllowed(cfg, s, AskAt(who, t)) && Allow(cfg, s, AskAt(who, t)).granted
    ensures Ready(cfg, Allow(cfg, s, AskAt(who, t)).state, who, t, x + 1, y + 1)
  {
    hide BucketFor, VictimAllowed, KnowsOnly, LeftIn, FoldIp, Refill, Lookup;
    SoleAsk(s.sessions, who.session, cfg.capacity, t);
    SoleAsk(s.sources, who.source, cfg.capacity, t);
    SoleSecond(s.global, cfg.globalCapacity, t);
  }

  lemma KnownLater<K(!new)>(m: Buckets<K>, key: K, capacity: u32, t: u64, t': u64)
    requires KnowsOnly(m, key, Minute(t)) && t <= t' && (capacity == 0 ==> key in m)
    ensures KnowsOnly(m, key, Minute(t'))
    ensures LeftIn(Lookup(m, key), capacity, t', SESSION_SOURCE_WINDOW_MS)
         == if Minute(t) == Minute(t') then LeftIn(Lookup(m, key), capacity, t, SESSION_SOURCE_WINDOW_MS)
            else Refill(capacity)
  {
    MinuteMonotone(t, t');
  }

  /** A new second brings a full global bucket, a new minute full narrow ones as well. */
  lemma ReadyLater(cfg: Config, s: State, who: Caller, t: u64, x: nat, y: nat, t': u64)
    requires Ready(cfg, s, who, t, x, y) && Second(t) < Second(t') && t <= t'
    ensures Ready(cfg, s, who, t', if Minute(t) == Minute(t') then x else 0, 0)
  {
    hide KnowsOnly, Lookup, Minute;
    KnownLater(s.sessions, who.session, cfg.capacity, t, t');
    KnownLater(s.sources, who.source, cfg.capacity, t, t');
  }

  // ----- runs of one caller -----

  function GrantCount(log: seq<Entry>): nat {
    if log == [] then 0 else GrantCount(Front(log)) + if Last(log).granted then 1 else 0
  }

  /** Nobody else ever asked, nobody was evicted, and whatever was granted was so from `from` to `t`. */
  ghost predicate Alone(cfg: Config, calls: seq<Call>, who: Caller, from: nat, t: u64) {
    && IsTrace(cfg, calls) && CalledInOrder(calls) && NobodyEvicted(calls)
    && (forall i :: 0 <= i < |calls| ==>
         && calls[i].request.session == who.session && calls[i].request.source == who.source
         && calls[i].request.nowMs <= t)
    && forall e :: e in Log(cfg, calls) && e.granted ==>
         e.session == who.session && e.source == who.source && from <= e.nowMs <= t
  }

  lemma CountExtends(log: seq<Entry>, e: Entry)
    ensures GrantCount(log + [e]) == GrantCount(log) + if e.granted then 1 else 0
  {
    assert Front(log + [e]) == log;
  }

  lemma LogExtends(cfg: Config, calls: seq<Call>, c: Call)
    ensures Log(cfg, calls + [c]) == Log(cfg, calls) + [EntryOf(c.request, Granted(cfg, calls, c))]
  {
    hide Granted, EntryOf;
    var calls' := calls + [c];
    assert Front(calls') == calls && Last(calls') == c;
    hide Front, Last;
    assert Log(cfg, calls')
        == Log(cfg, Front(calls')) + [EntryOf(Last(calls').request, Granted(cfg, Front(calls'), Last(calls')))];
  }

  lemma CallsExtend(calls: seq<Call>, who: Caller, t: u64)
    requires CalledInOrder(calls) && NobodyEvicted(calls)
    requires forall i :: 0 <= i < |calls| ==> calls[i].request.nowMs <= t
    ensures CalledInOrder(calls + [AskAt(who, t)]) && NobodyEvicted(calls + [AskAt(who, t)])
  {
  }

  lemma AloneOneMore(cfg: Config, calls: seq<Call>, who: Caller, from: nat, t: u64)
    requires Alone(cfg, calls, who, from, t) && FoldIp(who.source) == who.source
    requires CallAllowed(cfg, StateAfter(cfg, calls), AskAt(who, t))
    requires Granted(cfg, calls, AskAt(who, t)) ==> from <= t
    ensures Alone(cfg, calls + [AskAt(who, t)], who, from, t)
    ensures StateAfter(cfg, calls + [AskAt(who, t)]) == Allow(cfg, StateAfter(cfg, calls), AskAt(who, t)).state
    ensures GrantCount(Log(cfg, calls + [AskAt(who, t)]))
         == GrantCount(Log(cfg, calls)) + if Granted(cfg, calls, AskAt(who, t)) then 1 else 0
  {
    hide Allow, CallAllowed, FoldIp, IsTrace, CalledInOrder, NobodyEvicted, Log, StateAfter, Granted, GrantCount;
    TraceExtends(cfg, calls, AskAt(who, t));
    CallsExtend(calls, who, t);
    LogExtends(cfg, calls, AskAt(who, t));
    CountExtends(Log(cfg, calls), EntryOf(AskAt(who, t).request, Granted(cfg, calls, AskAt(who, t))));
  }

  /** The caller alone, with `x` and `y` used up at `t`, and `n` grants behind it. */
  ghost predicate Sole(cfg: Config, calls: seq<Call>, who: Caller, from: nat, t: u64, x: nat, y: nat, n: nat) {
    && Alone(cfg, calls, who, from, t)
    && Ready(cfg, StateAfter(cfg, calls), who, t, x, y)
    && GrantCount(Log(cfg, calls)) == n
  }

  lemma OneMore(cfg: Config, calls: seq<Call>, who: Caller, from: nat, t: u64, x: nat, y: nat, n: nat)
    requires Sole(cfg, calls, who, from, t, x, y, n) && FoldIp(who.source) == who.source && from <= t
    requires x < Refill(cfg.capacity) && y < Refill(cfg.globalCapacity)
    ensures Sole(cfg, calls + [AskAt(who, t)], who, from, t, x + 1, y + 1, n + 1)
  {
    hide Ready, Alone, Log, StateAfter, Allow, CallAllowed, FoldIp;
    ReadyStep(cfg, StateAfter(cfg, calls), who, t, x, y);
    AloneOneMore(cfg, calls, who, from, t);
  }

  /** `k` asks in a row at `t`. */
  lemma {:induction false} Burst(cfg: Config, calls: seq<Call>, who: Caller, from: nat, t: u64,
                                 x: nat, y: nat, n: nat, k: nat)
    returns (calls': seq<Call>)
    requires Sole(cfg, calls, who, from, t, x, y, n) && FoldIp(who.source) == who.source && from <= t
    requires x + k <= Refill(cfg.capacity) && y + k <= Refill(cfg.globalCapacity)
    ensures Sole(cfg, calls', who, from, t, x + k, y + k, n + k)
    decreases k
  {
    hide Sole, Refill, FoldIp;
    if k == 0 {
      calls' := calls;
    } else {
      OneMore(cfg, calls, who, from, t, x, y, n);
      calls' := Burst(cfg, calls + [AskAt(who, t)], who, from, t, x + 1, y + 1, n + 1, k - 1);
    }
  }

  lemma AloneLater(cfg: Config, calls: seq<Call>, who: Caller, from: nat, t: u64, t': u64)
    requires Alone(cfg, calls, who, from, t) && t <= t'
    ensures Alone(cfg, calls, who, from, t')
  {
    hide Log, IsTrace, CalledInOrder, NobodyEvicted;
  }

  lemma Later(cfg: Config, calls: seq<Call>, who: Caller, from: nat, t: u64, x: nat, y: nat, n: nat, t': u64)
    requires Sole(cfg, calls, who, from, t, x, y, n) && t <= t' && Second(t) < Second(t')
    ensures Sole(cfg, calls, who, from, t', if Minute(t) == Minute(t') then x else 0, 0, n)
  {
    hide Alone, Ready, Log, StateAfter, Minute, Second;
    AloneLater(cfg, calls, who, from, t, t');
    ReadyLater(cfg, StateAfter(cfg, calls), who, t, x, y, t');
  }

  /** The next second begins before `until`, in the same minute, and leaves one second less to go. */
  lemma NextSecond(t: u64, until: nat)
    requires t < until && WindowsMet(Anyone, t, until) >= 2
    requires (until - 1) / SESSION_SOURCE_WINDOW_MS == Minute(t)
    ensures var next := (Second(t) + 1) * GLOBAL_WINDOW_MS;
            && t < next < until && next / GLOBAL_WINDOW_MS == Second(t) + 1
            && next / SESSION_SOURCE_WINDOW_MS == Minute(t)
            && WindowsMet(Anyone, next, until) == WindowsMet(Anyone, t, until) - 1
  {
    var s, next := t / 1_000, (t / 1_000 + 1) * 1_000;
    SecondIs(next, s + 1);
    WindowMonotone(Session(""), t, next);
    WindowMonotone(Session(""), next, until - 1);
  }

  /** Asks from `t` to `until`, in one minute, as many as the budgets of its seconds allow. */
  lemma {:induction false} Spread(cfg: Config, calls: seq<Call>, who: Caller, from: nat, t: u64, until: nat,
                                  x: nat, n: nat, k: nat)
    returns (calls': seq<Call>, t': u64, y: nat)
    requires Sole(cfg, calls, who, from, t, x, 0, n) && FoldIp(who.source) == who.source
    requires from <= t < until <= CLOCK_END && (until - 1) / SESSION_SOURCE_WINDOW_MS == Minute(t)
    requires x + k <= Refill(cfg.capacity)
    requires k <= Times(Refill(cfg.globalCapacity), WindowsMet(Anyone, t, until))
    ensures t <= t' < until && Minute(t') == Minute(t) && Sole(cfg, calls', who, from, t', x + k, y, n + k)
    decreases WindowsMet(Anyone, t, until)
  {
    hide Sole, Refill, FoldIp, WindowsMet;
    var g := Refill(cfg.globalCapacity);
    if k <= g {
      calls' := Burst(cfg, calls, who, from, t, x, 0, n, k);
      t', y := t, k;
    } else {
      var full := Burst(cfg, calls, who, from, t, x, 0, n, g);
      TooFew(g, k, WindowsMet(Anyone, t, until));
      NextSecond(t, until);
      var next: u64 := (Second(t) + 1) * GLOBAL_WINDOW_MS;
      Later(cfg, full, who, from, t, x + g, g, n + g, next);
      calls', t', y := Spread(cfg, full, who, from, next, until, x + g, n + g, k - g);
    }
  }

  lemma TooFew(g: u32, k: nat, seconds: nat)
    requires g < k <= Times(g, seconds)
    ensures seconds >= 2 && k - g <= Times(g, seconds - 1)
  {
  }

  // ----- a caller who has been seen before -----

  lemma BeginReady(cfg: Config, who: Caller, t: u64)
    requires cfg.capacity >= 1 && t >= Earliest(cfg)
    ensures Ready(cfg, Initial(cfg), who, t, 0, 0)
  {
  }

  /** Without narrow capacity the caller must have asked in two earlier minutes. */
  lemma SecondMinuteReady(cfg: Config, who: Caller, t: u64)
    requires cfg.capacity == 0 && FoldIp(who.source) == who.source && t >= Earliest(cfg)
    ensures var s0 := Initial(cfg);
            var s1 := Allow(cfg, s0, AskAt(who, 0)).state;
            var s2 := Allow(cfg, s1, AskAt(who, 60_000)).state;
            && CallAllowed(cfg, s0, AskAt(who, 0)) && !Allow(cfg, s0, AskAt(who, 0)).granted
            && CallAllowed(cfg, s1, AskAt(who, 60_000)) && !Allow(cfg, s1, AskAt(who, 60_000)).granted
            && Ready(cfg, s2, who, t, 0, 0)
  {
    hide FoldIp;
    assert Minute(0) == 0 && Minute(60_000) == 1 && Minute(t) >= 2 && Second(t) >= 120 by {
      MinuteMonotone(120_000, t);
      SecondMonotone(120_000, t);
    }
  }

  lemma AloneAtFirst(cfg: Config, who: Caller, from: nat, t: u64)
    ensures Alone(cfg, [], who, from, t) && GrantCount(Log(cfg, [])) == 0 && StateAfter(cfg, []) == Initial(cfg)
  {
  }

  /** From the moment grants are possible at all there is a run that leaves the caller everything. */
  lemma Primed(cfg: Config, who: Caller, from: nat, t: u64) returns (calls: seq<Call>)
    requires FoldIp(who.source) == who.source && t >= Earliest(cfg)
    ensures Sole(cfg, calls, who, from, t, 0, 0, 0)
  {
    hide Alone, Ready, Log, StateAfter, Allow, CallAllowed, FoldIp, Initial;
    if cfg.capacity >= 1 {
      calls := [];
      AloneAtFirst(cfg, who, from, t);
      BeginReady(cfg, who, t);
    } else {
      SecondMinuteReady(cfg, who, t);
      AloneAtFirst(cfg, who, from, 0);
      AloneOneMore(cfg, [], who, from, 0);
      AloneLater(cfg, [] + [AskAt(who, 0)], who, from, 0, 60_000);
      AloneOneMore(cfg, [] + [AskAt(who, 0)], who, from, 60_000);
      calls := [] + [AskAt(who, 0)] + [AskAt(who, 60_000)];
      AloneLater(cfg, calls, who, from, 60_000, t);
    }
  }

  // ----- the worst minute -----

  /** One caller on its own can get exactly what the bound allows. */
  lemma Saturating(cfg: Config, who: Caller, from: u64) returns (calls: seq<Call>, t: u64)
    requires FoldIp(who.source) == who.source && from + SESSION_SOURCE_WINDOW_MS <= CLOCK_END
    ensures Alone(cfg, calls, who, from, t) && t < from + SESSION_SOURCE_WINDOW_MS
    ensures GrantCount(Log(cfg, calls)) == Most(cfg, from)
  {
    hide Alone, Ready, Log, FoldIp, Boundary, WindowsMet, Refill, Times, Earliest, StateAfter;
    var open, b, until := Opening(cfg, from), Boundary(from), from + SESSION_SOURCE_WINDOW_MS;
    BoundaryIsNear(from);
    if until <= open {
      calls, t := [], from;
      AloneAtFirst(cfg, who, from, t);
    } else {
      var first := Primed(cfg, who, from, open);
      var y := 0;
      var n1, n2 := Part(cfg, open, b), Part(cfg, Max(open, b), until);
      t := open;
      if open < b {
        first, t, y := Spread(cfg, first, who, from, open, b, 0, 0, n1);
        if b < until {
          BoundaryIsLater(from, t);
          Later(cfg, first, who, from, t, n1, y, n1, b);
        }
      }
      if Max(open, b) < until {
        calls, t, y := Spread(cfg, first, who, from, Max(open, b), until, 0, n1, n2);
      } else {
        calls := first;
      }
    }
  }

  lemma BoundaryIsLater(from: u64, t: u64)
    requires t < Boundary(from) < CLOCK_END && Minute(t) == Minute(from)
    ensures Second(t) < Second(Boundary(from)) && Minute(t) < Minute(Boundary(from))
  {
    var m := from / 60_000;
    MinuteIs(60_000 * (m + 1), m + 1);
    SecondIs(60_000 * (m + 1), 60 * (m + 1));
    assert t / 1_000 < 60 * (m + 1);
  }

  lemma {:induction false} AllCounted(log: seq<Entry>, p: Payer, from: nat, until: nat)
    requires forall e :: e in log && e.granted ==> PaidWithin(p, e, from, until)
    ensures GrantsDuring(log, p, from, until) == GrantCount(log)
  {
    if log != [] {
      assert Last(log) in log;
      AllCounted(Front(log), p, from, until);
    }
  }

  /** Payers the limiter has a narrow budget for; sources are folded before they are looked up. */
  predicate IsNarrow(p: Payer) {
    p.Session? || (p.Source? && FoldIp(p.ip) == p.ip)
  }

  /** Somebody who pays as `p`. */
  function CallerFor(p: Payer): Caller {
    Caller(if p.Session? then p.name else "", if p.Source? then p.ip else V4([0, 0, 0, 0]))
  }

  lemma CallerPays(cfg: Config, calls: seq<Call>, p: Payer, from: nat, t: u64, until: nat)
    requires IsNarrow(p) && Alone(cfg, calls, CallerFor(p), from, t) && t < until
    ensures GrantsDuring(Log(cfg, calls), p, from, until) == GrantCount(Log(cfg, calls))
  {
    hide Log, IsTrace, CalledInOrder, NobodyEvicted, GrantsDuring, GrantCount;
    AllCounted(Log(cfg, calls), p, from, until);
  }

  /** The worst minute, exactly and for all capacities: every run stays within `Most`, and some run reaches it. */
  lemma WorstMinute(cfg: Config, p: Payer, from: u64)
    requires IsNarrow(p) && from + SESSION_SOURCE_WINDOW_MS <= CLOCK_END
    ensures forall calls :: IsTrace(cfg, calls) && CalledInOrder(calls) && NobodyEvicted(calls) ==>
              GrantsDuring(Log(cfg, calls), p, from, from + SESSION_SOURCE_WINDOW_MS) <= Most(cfg, from)
    ensures exists calls :: IsTrace(cfg, calls) && CalledInOrder(calls) && NobodyEvicted(calls)
              && GrantsDuring(Log(cfg, calls), p, from, from + SESSION_SOURCE_WINDOW_MS) == Most(cfg, from)
  {
    hide Log, IsTrace, CalledInOrder, NobodyEvicted, GrantsDuring, Most, FoldIp, GrantCount;
    forall calls | IsTrace(cfg, calls) && CalledInOrder(calls) && NobodyEvicted(calls)
      ensures GrantsDuring(Log(cfg, calls), p, from, from + SESSION_SOURCE_WINDOW_MS) <= Most(cfg, from)
    {
      MinuteBound(cfg, calls, p, from);
    }
    CallerFolded(p);
    var calls, t := Saturating(cfg, CallerFor(p), from);
    CallerPays(cfg, calls, p, from, t, from + SESSION_SOURCE_WINDOW_MS);
  }

  lemma CallerFolded(p: Payer)
    requires IsNarrow(p)
    ensures FoldIp(CallerFor(p).source) == CallerFor(p).source
  {
  }

  // ----- rolling minutes -----

  /** In every run in which nobody is evicted, the minute from `from` on grants `p` at most its capacity. */
  ghost predicate KeepsMinute(cfg: Config, p: Payer, from: nat) {
    forall calls :: IsTrace(cfg, calls) && CalledInOrder(calls) && NobodyEvicted(calls) ==>
      GrantsDuring(Log(cfg, calls), p, from, from + SESSION_SOURCE_WINDOW_MS) <= cfg.capacity
  }

  /** How many of the seconds the minute from `from` on meets can grant anything. */
  function SecondsMet(cfg: Config, from: nat): nat {
    (if from % GLOBAL_WINDOW_MS == 0 then 60 else 61)
    - if cfg.globalCapacity == 0 && from < GLOBAL_WINDOW_MS then 1 else 0
  }

  /** When the minute from `from` on is within the capacity. */
  predicate WithinMinute(cfg: Config, from: nat) {
    if cfg.capacity == 0 then from <= SESSION_SOURCE_WINDOW_MS
    else from % SESSION_SOURCE_WINDOW_MS == 0 || Refill(cfg.globalCapacity) * SecondsMet(cfg, from) <= cfg.capacity
  }

  /** A moment by its minute, second and millisecond. */
  lemma Clock(from: nat) returns (m: nat, s: nat, r: nat)
    ensures from == 60_000 * m + 1_000 * s + r && s < 60 && r < 1_000
    ensures from / 60_000 == m && from / 1_000 == 60 * m + s && from % 1_000 == r
    ensures from % 60_000 == 0 <==> s == 0 && r == 0
  {
    m, s, r := from / 60_000, from / 1_000 % 60, from % 1_000;
    SecondIs(from, from / 1_000);
    var q := from / 1_000 / 60;
    assert from / 1_000 == 60 * q + s && from == 1_000 * (from / 1_000) + r;
    MinuteIs(from, q);
  }

  /** The seconds before the boundary and from there on add up to the ones the minute meets. */
  lemma PartsMeet(cfg: Config, from: nat)
    requires cfg.capacity >= 1
    ensures var open, b, until := Opening(cfg, from), Boundary(from), from + SESSION_SOURCE_WINDOW_MS;
            && open < b <= until
            && (b == until <==> from % SESSION_SOURCE_WINDOW_MS == 0)
            && WindowsMet(Anyone, open, b) + (if b < until then WindowsMet(Anyone, b, until) else 0)
               == SecondsMet(cfg, from)
  {
    hide Refill;
    var m, s, r := Clock(from);
    var open, b, until := Opening(cfg, from), Boundary(from), from + SESSION_SOURCE_WINDOW_MS;
    assert b == 60_000 * (m + 1);
    SecondIs(b - 1, 60 * m + 59);
    SecondIs(b, 60 * m + 60);
    if r == 0 {
      SecondIs(until - 1, 60 * m + s + 59);
    } else {
      SecondIs(until - 1, 60 * m + s + 60);
    }
    if open > from {
      assert open == 1_000 && m == 0 && s == 0;
    }
  }

  lemma MostIsMin(c: nat, g: u32, k1: nat, k2: nat)
    requires c >= 1 && g >= 1 && k1 >= 1
    ensures Min(c, Times(g, k1)) + (if k2 > 0 then Min(c, Times(g, k2)) else 0) <= c
       <==> k2 == 0 || g * (k1 + k2) <= c
  {
    TimesAdds(g, k1, k2);
    TimesIsProduct(g, k1 + k2);
    AtLeastOnce(g, k1);
    AtLeastOnce(g, k2);
  }

  lemma AtLeastOnce(g: u32, k: nat)
    requires g >= 1
    ensures Times(g, k) >= 1 <==> k >= 1
  {
  }

  lemma MostWithinCapacity(cfg: Config, from: nat)
    ensures Most(cfg, from) <= cfg.capacity <==> WithinMinute(cfg, from)
  {
    if cfg.capacity == 0 {
      ZeroMost(cfg, from);
    } else {
      PositiveMost(cfg, from);
    }
  }

  lemma PositiveMost(cfg: Config, from: nat)
    requires cfg.capacity >= 1
    ensures Most(cfg, from) <= cfg.capacity <==> WithinMinute(cfg, from)
  {
    hide Boundary, Opening, WindowsMet, Times, SecondsMet, Min;
    var open, b, until := Opening(cfg, from), Boundary(from), from + SESSION_SOURCE_WINDOW_MS;
    var g := Refill(cfg.globalCapacity);
    PartsMeet(cfg, from);
    assert Max(open, b) == b && Refill(cfg.capacity) == cfg.capacity;
    var k1, k2 := WindowsMet(Anyone, open, b), if b < until then WindowsMet(Anyone, b, until) else 0;
    MostIsMin(cfg.capacity, g, k1, k2);
  }

  lemma ZeroMost(cfg: Config, from: nat)
    requires cfg.capacity == 0
    ensures Most(cfg, from) == 0 <==> from <= SESSION_SOURCE_WINDOW_MS
  {
    hide Boundary, WindowsMet, Times;
    var open, b, until := Opening(cfg, from), Boundary(from), from + SESSION_SOURCE_WINDOW_MS;
    BoundaryIsNear(from);
    if open < b {
      AtLeastOnce(Refill(cfg.globalCapacity), WindowsMet(Anyone, open, b));
    }
    if Max(open, b) < until {
      AtLeastOnce(Refill(cfg.globalCapacity), WindowsMet(Anyone, Max(open, b), until));
    }
  }

  /**
   * Exactly when a session or a source is held to its capacity in the minute from `from` on. With a
   * positive capacity: if that minute is an aligned one, or the global budget of the seconds it
   * meets is no larger. With none: if it ends before the clock's third minute.
   */
  lemma KeepsMinuteIff(cfg: Config, p: Payer, from: u64)
    requires IsNarrow(p) && from + SESSION_SOURCE_WINDOW_MS <= CLOCK_END
    ensures KeepsMinute(cfg, p, from) <==> WithinMinute(cfg, from)
  {
    hide Log, IsTrace, CalledInOrder, NobodyEvicted, GrantsDuring, Most, WithinMinute, IsNarrow;
    WorstMinute(cfg, p, from);
    MostWithinCapacity(cfg, from);
  }

  /** The promise of rolling minutes: exactly if 61 seconds of global budget fit into the capacity. */
  lemma RollingIff(cfg: Config, p: Payer)
    requires IsNarrow(p)
    ensures (forall from: u64 :: from + SESSION_SOURCE_WINDOW_MS <= CLOCK_END ==> KeepsMinute(cfg, p, from))
       <==> 61 * Refill(cfg.globalCapacity) <= cfg.capacity
  {
    hide KeepsMinute, IsNarrow;
    KeepsMinuteIff(cfg, p, 60_001);
    assert WithinMinute(cfg, 60_001) <==> 61 * Refill(cfg.globalCapacity) <= cfg.capacity;
    if 61 * Refill(cfg.globalCapacity) <= cfg.capacity {
      forall from: u64 | from + SESSION_SOURCE_WINDOW_MS <= CLOCK_END ensures KeepsMinute(cfg, p, from) {
        KeepsMinuteIff(cfg, p, from);
        FewerSeconds(cfg, from);
      }
    }
  }

  lemma FewerSeconds(cfg: Config, from: nat)
    requires 61 * Refill(cfg.globalCapacity) <= cfg.capacity
    ensures WithinMinute(cfg, from)
  {
    var g, k := Refill(cfg.globalCapacity), SecondsMet(cfg, from);
    assert k == 59 || k == 60 || k == 61;
  }

  /**
   * Limiters of all positive narrow capacities keep the minute from `from` on exactly if it is
   * aligned; limiters of all capacities exactly if it is one of the first two of the clock.
   */
  lemma OnlyAlignedMinutes(p: Payer, from: u64)
    requires IsNarrow(p) && from + SESSION_SOURCE_WINDOW_MS <= CLOCK_END
    ensures (forall cfg: Config :: cfg.capacity >= 1 ==> KeepsMinute(cfg, p, from))
       <==> from % SESSION_SOURCE_WINDOW_MS == 0
    ensures (forall cfg: Config :: KeepsMinute(cfg, p, from)) <==> from == 0 || from == SESSION_SOURCE_WINDOW_MS
  {
    hide KeepsMinute, IsNarrow;
    KeepsMinuteIff(Config(1, 1), p, from);
    KeepsMinuteIff(Config(0, 1), p, from);
    forall cfg: Config ensures KeepsMinute(cfg, p, from) <==> WithinMinute(cfg, from) {
      KeepsMinuteIff(cfg, p, from);
    }
  }

  // ----- using up what everyone shares -----

  /** The calls leave nobody anything of the second. */
  ghost predicate Drained(cfg: Config, calls: seq<Call>, second: nat) {
    forall c: Call :: Second(c.request.nowMs) == second ==> !GlobalPermits(StateAfter(cfg, calls), c)
  }

  /** There is a run that does so although only `p` was ever granted anything. */
  ghost predicate DrainsAlone(cfg: Config, p: Payer, second: nat) {
    exists calls :: IsTrace(cfg, calls) && CalledInOrder(calls) && NobodyEvicted(calls) && Drained(cfg, calls, second)
      && forall e :: e in Log(cfg, calls) && e.granted ==> Pays(p, e)
  }

  /** A drained second has had all its grants. */
  lemma DrainedIsSpent(cfg: Config, calls: seq<Call>, second: nat)
    requires IsTrace(cfg, calls) && CalledInOrder(calls) && Drained(cfg, calls, second) && 1_000 * second < CLOCK_END
    requires cfg.globalCapacity >= 1 || second >= 1
    ensures Spent(Log(cfg, calls), OfSecond(second)) >= Refill(cfg.globalCapacity)
  {
    hide Log, IsTrace, CalledInOrder, StateAfter, Spent;
    var c := AskAt(Caller("", V4([0, 0, 0, 0])), 1_000 * second);
    SecondIs(1_000 * second, second);
    assert !GlobalPermits(StateAfter(cfg, calls), c);
    if cfg.globalCapacity == 0 {
      ZeroGlobalOnce(cfg, calls, second);
    } else {
      GlobalInvariant(cfg, calls, second);
    }
  }

  lemma {:induction false} SomethingGranted(log: seq<Entry>, second: nat)
    requires Spent(log, OfSecond(second)) >= 1
    ensures exists e :: e in log && e.granted && Second(e.nowMs) == second
  {
    if Charges(OfSecond(second), Last(log)) {
      assert Last(log) in log;
    } else {
      SomethingGranted(Front(log), second);
      var e :| e in Front(log) && e.granted && Second(e.nowMs) == second;
      assert e in log;
    }
  }

  /** If only `p` was granted anything, the second's grants are its grants. */
  lemma {:induction false} SpentByOne(log: seq<Entry>, p: Payer, second: nat)
    requires forall e :: e in log && e.granted ==> Pays(p, e)
    ensures Spent(log, OfSecond(second)) == GrantsDuring(log, p, 1_000 * second, 1_000 * second + 1_000)
  {
    if log != [] {
      assert Last(log) in log;
      SpentByOne(Front(log), p, second);
      InSecond(Last(log).nowMs, second);
    }
  }

  lemma DrainsOnlyIf(cfg: Config, p: Payer, second: nat)
    requires IsNarrow(p) && 1_000 * second < CLOCK_END && DrainsAlone(cfg, p, second)
    requires cfg.globalCapacity >= 1 || second >= 1
    ensures Refill(cfg.capacity) >= Refill(cfg.globalCapacity) && 1_000 * second >= Earliest(cfg)
  {
    hide Log, IsTrace, CalledInOrder, NobodyEvicted, Drained, Spent, GrantsDuring, Times, FoldIp, Refill, Pays,
         WindowsMet;
    var calls :| IsTrace(cfg, calls) && CalledInOrder(calls) && NobodyEvicted(calls) && Drained(cfg, calls, second)
                 && forall e :: e in Log(cfg, calls) && e.granted ==> Pays(p, e);
    var log := Log(cfg, calls);
    DrainedIsSpent(cfg, calls, second);
    SpentByOne(log, p, second);
    OneSecondOneMinute(p, second);
    MetBound(cfg, calls, p, 1_000 * second, 1_000 * second + 1_000);
    TimesIsProduct(Refill(cfg.capacity), 1);
    RefillIsPositive(cfg.globalCapacity);
    SomethingGranted(log, second);
    var e :| e in log && e.granted && Second(e.nowMs) == second;
    NothingEarly(cfg, calls);
    InSecond(e.nowMs, second);
  }

  lemma RefillIsPositive(capacity: u32)
    ensures Refill(capacity) >= 1
  {
  }

  lemma ReadyMeansDrained(cfg: Config, calls: seq<Call>, who: Caller, from: nat, t: u64, x: nat, n: nat)
    requires Sole(cfg, calls, who, from, t, x, Refill(cfg.globalCapacity), n)
    ensures Drained(cfg, calls, Second(t))
  {
    hide Alone, Log, StateAfter;
  }

  lemma DrainsIf(cfg: Config, p: Payer, second: nat)
    requires IsNarrow(p) && Earliest(cfg) <= 1_000 * second < CLOCK_END
    requires Refill(cfg.capacity) >= Refill(cfg.globalCapacity)
    ensures DrainsAlone(cfg, p, second)
  {
    hide Sole, FoldIp, Drained, Refill, Earliest;
    var t: u64, g := 1_000 * second, Refill(cfg.globalCapacity);
    CallerFolded(p);
    var first := Primed(cfg, CallerFor(p), t, t);
    var calls := Burst(cfg, first, CallerFor(p), t, t, 0, 0, 0, g);
    ReadyMeansDrained(cfg, calls, CallerFor(p), t, t, g, g);
    SecondIs(t, second);
    SoleMeans(cfg, calls, p, t, t, g, g, g);
  }

  lemma SoleMeans(cfg: Config, calls: seq<Call>, p: Payer, from: nat, t: u64, x: nat, y: nat, n: nat)
    requires IsNarrow(p) && Sole(cfg, calls, CallerFor(p), from, t, x, y, n)
    ensures IsTrace(cfg, calls) && CalledInOrder(calls) && NobodyEvicted(calls)
    ensures forall e :: e in Log(cfg, calls) && e.granted ==> Pays(p, e)
  {
    hide Log, IsTrace, CalledInOrder, NobodyEvicted, StateAfter, GrantCount;
  }

  /**
   * The source says one abuser can never drain the shared budget. One session or one source alone
   * uses up a second exactly if the narrow capacity is at least the global one (and the clock late
   * enough for any grant), or if there was nothing to use up.
   */
  lemma DrainsAloneIff(cfg: Config, p: Payer, second: nat)
    requires IsNarrow(p) && 1_000 * second < CLOCK_END
    ensures DrainsAlone(cfg, p, second)
       <==> (cfg.globalCapacity == 0 && second == 0)
            || (Refill(cfg.capacity) >= Refill(cfg.globalCapacity) && 1_000 * second >= Earliest(cfg))
  {
    hide DrainsAlone, IsNarrow, Refill, Earliest;
    if cfg.globalCapacity == 0 && second == 0 {
      NothingToDrain(cfg, p);
    } else if DrainsAlone(cfg, p, second) {
      DrainsOnlyIf(cfg, p, second);
    } else if Refill(cfg.capacity) >= Refill(cfg.globalCapacity) && 1_000 * second >= Earliest(cfg) {
      DrainsIf(cfg, p, second);
    }
  }

  lemma NothingToDrain(cfg: Config, p: Payer)
    requires cfg.globalCapacity == 0
    ensures DrainsAlone(cfg, p, 0)
  {
    assert IsTrace(cfg, []) && CalledInOrder([]) && NobodyEvicted([]) && Drained(cfg, [], 0) && Log(cfg, []) == [];
  }
}
