/**
 * What whole runs of the observation limiter guarantee: it agrees with an oracle that merely
 * counts past grants, it stays within quantified bounds when buckets are evicted, and tokens are
 * conserved across its dimensions.
 */
module ObserveRuns {
  import opened Prelude
  import opened Scope
  import opened TokenBuckets
  import opened Observe

  /** One line of the limiter's history: who asked, from where, when, and the answer. */
  datatype Entry = Entry(session: string, source: IpAddr, nowMs: u64, granted: bool)

  function EntryOf(r: Request, granted: bool): Entry {
    Entry(r.session, FoldIp(r.source), r.nowMs, granted)
  }

  function Log(cfg: Config, calls: seq<Call>): seq<Entry> {
    if calls == [] then []
    else Log(cfg, Front(calls)) + [EntryOf(Last(calls).request, Granted(cfg, Front(calls), Last(calls)))]
  }

  function Requests(calls: seq<Call>): seq<Request> {
    if calls == [] then [] else Requests(Front(calls)) + [Last(calls).request]
  }

  ghost predicate CalledInOrder(calls: seq<Call>) {
    InOrder(calls, (c: Call) => c.request.nowMs)
  }

  // ----- the oracle -----

  function Second(nowMs: u64): u64 {
    nowMs / 1_000
  }

  /** What a grant is charged to. */
  datatype Budget =
    | OfSession(session: string, minute: nat)
    | OfSource(source: IpAddr, minute: nat)
    | OfMinute(minute: nat)
    | OfSecond(second: nat)

  predicate Charges(b: Budget, e: Entry) {
    e.granted &&
    match b
    case OfSession(s, w) => e.session == s && Minute(e.nowMs) == w
    case OfSource(a, w) => e.source == a && Minute(e.nowMs) == w
    case OfMinute(w) => Minute(e.nowMs) == w
    case OfSecond(w) => Second(e.nowMs) == w
  }

  /** How many grants of the history were charged to `b`. */
  function Spent(log: seq<Entry>, b: Budget): nat {
    if log == [] then 0 else Spent(Front(log), b) + if Charges(b, Last(log)) then 1 else 0
  }

  predicate OracleGrants(cfg: Config, log: seq<Entry>, r: Request) {
    && Spent(log, OfSession(r.session, Minute(r.nowMs))) < cfg.capacity
    && Spent(log, OfSource(FoldIp(r.source), Minute(r.nowMs))) < cfg.capacity
    && Spent(log, OfSecond(Second(r.nowMs))) < cfg.globalCapacity
  }

  /** The history a limiter with unbounded memory would write. */
  function OracleLog(cfg: Config, requests: seq<Request>): seq<Entry> {
    if requests == [] then []
    else
      var log := OracleLog(cfg, Front(requests));
      log + [EntryOf(Last(requests), OracleGrants(cfg, log, Last(requests)))]
  }

  lemma LogLast(cfg: Config, calls: seq<Call>, b: Budget)
    requires calls != []
    ensures var past, c := Front(calls), Last(calls);
            Spent(Log(cfg, calls), b) == Spent(Log(cfg, past), b)
              + if Charges(b, EntryOf(c.request, Granted(cfg, past, c))) then 1 else 0
  {
  }

  // ----- the two maps, each on its own -----

  lemma GrantedIffAllPermit(cfg: Config, s: State, c: Call)
    ensures Allow(cfg, s, c).granted
            <==> SessionPermits(cfg, s, c) && SourcePermits(cfg, s, c) && GlobalPermits(s, c)
  {
  }

  function SessionAsks(cfg: Config, calls: seq<Call>): seq<Ask<string>> {
    if calls == [] then []
    else SessionAsks(cfg, Front(calls)) + [SessionAsk(Last(calls), Granted(cfg, Front(calls), Last(calls)))]
  }

  /** The source map is consulted only when the session map permits. */
  function SourceAsks(cfg: Config, calls: seq<Call>): seq<Ask<IpAddr>> {
    if calls == [] then []
    else
      var past, c := Front(calls), Last(calls);
      if SessionPermits(cfg, StateAfter(cfg, past), c)
      then SourceAsks(cfg, past) + [SourceAsk(c, Granted(cfg, past, c))]
      else SourceAsks(cfg, past)
  }

  lemma RunExtends<K>(capacity: u32, asks: seq<Ask<K>>, a: Ask<K>)
    requires IsRun(capacity, asks) && Feasible(After(capacity, asks), capacity, a)
    ensures IsRun(capacity, asks + [a])
    ensures After(capacity, asks + [a]) == Advance(After(capacity, asks), capacity, a)
  {
  }

  lemma {:induction false} SessionsProject(cfg: Config, calls: seq<Call>)
    requires IsTrace(cfg, calls)
    ensures IsRun(cfg.capacity, SessionAsks(cfg, calls))
    ensures After(cfg.capacity, SessionAsks(cfg, calls)) == StateAfter(cfg, calls).sessions
  {
    if calls != [] {
      var past, c := Front(calls), Last(calls);
      SessionsProject(cfg, past);
      RunExtends(cfg.capacity, SessionAsks(cfg, past), SessionAsk(c, Granted(cfg, past, c)));
    }
  }

  lemma {:induction false} SourcesProject(cfg: Config, calls: seq<Call>)
    requires IsTrace(cfg, calls)
    ensures IsRun(cfg.capacity, SourceAsks(cfg, calls))
    ensures After(cfg.capacity, SourceAsks(cfg, calls)) == StateAfter(cfg, calls).sources
  {
    if calls != [] {
      var past, c := Front(calls), Last(calls);
      SourcesProject(cfg, past);
      if SessionPermits(cfg, StateAfter(cfg, past), c) {
        RunExtends(cfg.capacity, SourceAsks(cfg, past), SourceAsk(c, Granted(cfg, past, c)));
      }
    }
  }

  lemma AskedInOrderExtends<K>(asks: seq<Ask<K>>, a: Ask<K>)
    requires AskedInOrder(asks) && forall i :: 0 <= i < |asks| ==> asks[i].nowMs <= a.nowMs
    ensures AskedInOrder(asks + [a])
  {
  }

  lemma {:induction false} AsksInOrder(cfg: Config, calls: seq<Call>)
    requires CalledInOrder(calls)
    ensures AskedInOrder(SessionAsks(cfg, calls)) && AskedInOrder(SourceAsks(cfg, calls))
    ensures calls != [] ==> forall i :: 0 <= i < |SessionAsks(cfg, calls)| ==>
              SessionAsks(cfg, calls)[i].nowMs <= Last(calls).request.nowMs
    ensures calls != [] ==> forall i :: 0 <= i < |SourceAsks(cfg, calls)| ==>
              SourceAsks(cfg, calls)[i].nowMs <= Last(calls).request.nowMs
  {
    if calls != [] {
      var past, c := Front(calls), Last(calls);
      AsksInOrder(cfg, past);
      assert past != [] ==> Last(past).request.nowMs <= c.request.nowMs;
      AskedInOrderExtends(SessionAsks(cfg, past), SessionAsk(c, Granted(cfg, past, c)));
      AskedInOrderExtends(SourceAsks(cfg, past), SourceAsk(c, Granted(cfg, past, c)));
    }
  }

  lemma {:induction false} SessionCountsAgree(cfg: Config, calls: seq<Call>, key: string, w: nat)
    ensures Grants(SessionAsks(cfg, calls), key, w) == Spent(Log(cfg, calls), OfSession(key, w))
    ensures AllGrants(SessionAsks(cfg, calls), w) == Spent(Log(cfg, calls), OfMinute(w))
  {
    if calls != [] {
      var past := Front(calls);
      SessionCountsAgree(cfg, past, key, w);
      assert Front(SessionAsks(cfg, calls)) == SessionAsks(cfg, past);
      LogLast(cfg, calls, OfSession(key, w));
      LogLast(cfg, calls, OfMinute(w));
    }
  }

  lemma {:induction false} SourceCountsAgree(cfg: Config, calls: seq<Call>, key: IpAddr, w: nat)
    ensures Grants(SourceAsks(cfg, calls), key, w) == Spent(Log(cfg, calls), OfSource(key, w))
    ensures AllGrants(SourceAsks(cfg, calls), w) == Spent(Log(cfg, calls), OfMinute(w))
  {
    if calls != [] {
      var past, c := Front(calls), Last(calls);
      SourceCountsAgree(cfg, past, key, w);
      LogLast(cfg, calls, OfSource(key, w));
      LogLast(cfg, calls, OfMinute(w));
      GrantedIffAllPermit(cfg, StateAfter(cfg, past), c);
      if SessionPermits(cfg, StateAfter(cfg, past), c) {
        assert Front(SourceAsks(cfg, calls)) == SourceAsks(cfg, past);
      }
    }
  }

  // ----- the global budget -----

  ghost predicate GlobalCounted(b: TokenBucket, capacity: u32, w: nat, now: u64, g: nat) {
    && b.window <= now && b.tokens <= capacity && g <= capacity
    && (b.window == w ==> g + b.tokens == capacity)
    && (b.window < w ==> g == 0)
  }

  function TraceNow(calls: seq<Call>): u64 {
    if calls == [] then 0 else Last(calls).request.nowMs
  }

  lemma PastInOrder(calls: seq<Call>)
    requires calls != [] && CalledInOrder(calls)
    ensures CalledInOrder(Front(calls)) && TraceNow(Front(calls)) <= Last(calls).request.nowMs
  {
  }

  lemma SecondMonotone(t: u64, t': u64)
    requires t <= t'
    ensures Second(t) <= Second(t')
  {
  }

  lemma GlobalStep(b: TokenBucket, capacity: u32, w: nat, now: u64, g: nat, nowMs: u64)
    requires capacity >= 1 && GlobalCounted(b, capacity, w, now, g) && now <= Second(nowMs)
    requires b.Peek(nowMs, GLOBAL_WINDOW_MS)
    ensures GlobalCounted(b.Spend(capacity, nowMs, GLOBAL_WINDOW_MS), capacity, w, Second(nowMs),
                          g + if Second(nowMs) == w then 1 else 0)
  {
  }

  lemma {:induction false} GlobalInvariant(cfg: Config, calls: seq<Call>, w: nat)
    requires IsTrace(cfg, calls) && CalledInOrder(calls) && cfg.globalCapacity >= 1
    ensures GlobalCounted(StateAfter(cfg, calls).global, cfg.globalCapacity, w, Second(TraceNow(calls)),
                          Spent(Log(cfg, calls), OfSecond(w)))
  {
    hide CalledInOrder;
    if calls != [] {
      var past, c := Front(calls), Last(calls);
      PastInOrder(calls);
      GlobalInvariant(cfg, past, w);
      SecondMonotone(TraceNow(past), c.request.nowMs);
      assert Front(Log(cfg, calls)) == Log(cfg, past);
      if Granted(cfg, past, c) {
        GlobalStep(StateAfter(cfg, past).global, cfg.globalCapacity, w, Second(TraceNow(past)),
                   Spent(Log(cfg, past), OfSecond(w)), c.request.nowMs);
      }
    }
  }

  /** No second ever sees more grants than the global capacity, whatever is evicted. */
  lemma GlobalBound(cfg: Config, calls: seq<Call>, second: nat)
    requires IsTrace(cfg, calls) && CalledInOrder(calls) && cfg.globalCapacity >= 1
    ensures Spent(Log(cfg, calls), OfSecond(second)) <= cfg.globalCapacity
  {
    GlobalInvariant(cfg, calls, second);
  }

  // ----- refinement -----

  ghost function SessionsSeen(calls: seq<Call>): set<string> {
    set i | 0 <= i < |calls| :: calls[i].request.session
  }

  ghost function SourcesSeen(calls: seq<Call>): set<IpAddr> {
    set i | 0 <= i < |calls| :: FoldIp(calls[i].request.source)
  }

  lemma {:induction false} AsksAreSeen(cfg: Config, calls: seq<Call>)
    ensures KeysAsked(SessionAsks(cfg, calls)) <= SessionsSeen(calls)
    ensures KeysAsked(SourceAsks(cfg, calls)) <= SourcesSeen(calls)
  {
    if calls != [] {
      var past, c := Front(calls), Last(calls);
      AsksAreSeen(cfg, past);
      KeysAskedLast(SessionAsks(cfg, calls));
      assert Front(SessionAsks(cfg, calls)) == SessionAsks(cfg, past);
      SeenGrows(calls);
      if SessionPermits(cfg, StateAfter(cfg, past), c) {
        KeysAskedLast(SourceAsks(cfg, calls));
        assert Front(SourceAsks(cfg, calls)) == SourceAsks(cfg, past);
      }
    }
  }

  lemma SeenGrows(calls: seq<Call>)
    requires calls != []
    ensures SessionsSeen(Front(calls)) + {Last(calls).request.session} <= SessionsSeen(calls)
    ensures SourcesSeen(Front(calls)) + {FoldIp(Last(calls).request.source)} <= SourcesSeen(calls)
  {
  }

  /** Few enough callers for the maps to remember all of them. */
  ghost predicate Roomy(calls: seq<Call>) {
    |SessionsSeen(calls)| <= MAX_TRACKED_SOURCES && |SourcesSeen(calls)| <= MAX_TRACKED_SOURCES
  }

  lemma RoomyNoEvictions(cfg: Config, calls: seq<Call>)
    requires IsTrace(cfg, calls) && Roomy(calls)
    ensures NoEvictions(SessionAsks(cfg, calls)) && NoEvictions(SourceAsks(cfg, calls))
  {
    SessionsProject(cfg, calls);
    SourcesProject(cfg, calls);
    AsksAreSeen(cfg, calls);
    SubsetSize(KeysAsked(SessionAsks(cfg, calls)), SessionsSeen(calls));
    SubsetSize(KeysAsked(SourceAsks(cfg, calls)), SourcesSeen(calls));
    FewKeysNoEvictions(cfg.capacity, SessionAsks(cfg, calls));
    FewKeysNoEvictions(cfg.capacity, SourceAsks(cfg, calls));
  }

  lemma SessionOracle(cfg: Config, calls: seq<Call>)
    requires calls != [] && IsTrace(cfg, calls) && CalledInOrder(calls) && cfg.capacity >= 1
    requires NoEvictions(SessionAsks(cfg, calls))
    ensures var past, c := Front(calls), Last(calls);
            SessionPermits(cfg, StateAfter(cfg, past), c)
            <==> Spent(Log(cfg, past), OfSession(c.request.session, Minute(c.request.nowMs))) < cfg.capacity
  {
    var past, c := Front(calls), Last(calls);
    var asks, a := SessionAsks(cfg, past), SessionAsk(c, Granted(cfg, past, c));
    assert SessionAsks(cfg, calls) == asks + [a];
    forall i | 0 <= i < |asks| ensures asks[i].victim.None? { assert asks[i] == (asks + [a])[i]; }
    assert (asks + [a])[|asks|].victim.None?;
    SessionsProject(cfg, past);
    AsksInOrder(cfg, calls);
    PermitsIsOracle(cfg.capacity, asks, a);
    SessionCountsAgree(cfg, past, c.request.session, Minute(c.request.nowMs));
  }

  lemma SourceOracle(cfg: Config, calls: seq<Call>)
    requires calls != [] && IsTrace(cfg, calls) && CalledInOrder(calls) && cfg.capacity >= 1
    requires NoEvictions(SourceAsks(cfg, calls))
    requires SessionPermits(cfg, StateAfter(cfg, Front(calls)), Last(calls))
    ensures var past, c := Front(calls), Last(calls);
            SourcePermits(cfg, StateAfter(cfg, past), c)
            <==> Spent(Log(cfg, past), OfSource(FoldIp(c.request.source), Minute(c.request.nowMs))) < cfg.capacity
  {
    var past, c := Front(calls), Last(calls);
    var asks, a := SourceAsks(cfg, past), SourceAsk(c, Granted(cfg, past, c));
    assert SourceAsks(cfg, calls) == asks + [a];
    forall i | 0 <= i < |asks| ensures asks[i].victim.None? { assert asks[i] == (asks + [a])[i]; }
    assert (asks + [a])[|asks|].victim.None?;
    SourcesProject(cfg, past);
    AsksInOrder(cfg, calls);
    PermitsIsOracle(cfg.capacity, asks, a);
    SourceCountsAgree(cfg, past, FoldIp(c.request.source), Minute(c.request.nowMs));
  }

  lemma GlobalOracle(cfg: Config, calls: seq<Call>)
    requires calls != [] && IsTrace(cfg, calls) && CalledInOrder(calls) && cfg.globalCapacity >= 1
    ensures var past, c := Front(calls), Last(calls);
            GlobalPermits(StateAfter(cfg, past), c)
            <==> Spent(Log(cfg, past), OfSecond(Second(c.request.nowMs))) < cfg.globalCapacity
  {
    var past, c := Front(calls), Last(calls);
    GlobalInvariant(cfg, past, Second(c.request.nowMs));
    SecondMonotone(TraceNow(past), c.request.nowMs);
  }

  ghost predicate NobodyEvicted(calls: seq<Call>) {
    forall i :: 0 <= i < |calls| ==> calls[i].sessionVictim.None? && calls[i].sourceVictim.None?
  }

  lemma {:induction false} NoVictimsNoEvictions(cfg: Config, calls: seq<Call>)
    requires NobodyEvicted(calls)
    ensures NoEvictions(SessionAsks(cfg, calls)) && NoEvictions(SourceAsks(cfg, calls))
  {
    if calls != [] {
      NoVictimsNoEvictions(cfg, Front(calls));
    }
  }

  /**
   * Refinement: until a bucket is evicted, the limiter answers every request of every run exactly
   * as the oracle that counts grants in the history.
   */
  lemma {:induction false} LimiterRefinesOracle(cfg: Config, calls: seq<Call>)
    requires IsTrace(cfg, calls) && CalledInOrder(calls) && NobodyEvicted(calls)
    requires cfg.capacity >= 1 && cfg.globalCapacity >= 1
    ensures Log(cfg, calls) == OracleLog(cfg, Requests(calls))
  {
    if calls != [] {
      var past, c := Front(calls), Last(calls);
      LimiterRefinesOracle(cfg, past);
      NoVictimsNoEvictions(cfg, calls);
      SessionOracle(cfg, calls);
      if SessionPermits(cfg, StateAfter(cfg, past), c) {
        SourceOracle(cfg, calls);
      }
      GlobalOracle(cfg, calls);
      GrantedIffAllPermit(cfg, StateAfter(cfg, past), c);
      assert Front(Requests(calls)) == Requests(past);
    }
  }

  lemma RoomyBefore(calls: seq<Call>)
    requires calls != [] && Roomy(calls)
    ensures Roomy(Front(calls))
  {
    SeenGrows(calls);
    SubsetSize(SessionsSeen(Front(calls)), SessionsSeen(calls));
    SubsetSize(SourcesSeen(Front(calls)), SourcesSeen(calls));
  }

  /** Evictions need more distinct callers than the maps can hold, so below that the oracle is exact. */
  lemma {:induction false} FewCallersNobodyEvicted(cfg: Config, calls: seq<Call>)
    requires IsTrace(cfg, calls) && Roomy(calls)
    ensures NobodyEvicted(calls)
  {
    if calls != [] {
      RoomyBefore(calls);
      FewCallersNobodyEvicted(cfg, Front(calls));
      assert Last(calls).sessionVictim.None? && Last(calls).sourceVictim.None? by {
        RoomyNoEvictions(cfg, calls);
        LastAsksUnevicted(cfg, calls);
      }
    }
  }

  lemma LastAsksUnevicted(cfg: Config, calls: seq<Call>)
    requires calls != [] && CallAllowed(cfg, StateAfter(cfg, Front(calls)), Last(calls))
    requires NoEvictions(SessionAsks(cfg, calls)) && NoEvictions(SourceAsks(cfg, calls))
    ensures Last(calls).sessionVictim.None? && Last(calls).sourceVictim.None?
  {
    var past, c := Front(calls), Last(calls);
    assert SessionAsks(cfg, calls)[|SessionAsks(cfg, past)|].victim == c.sessionVictim;
    if SessionPermits(cfg, StateAfter(cfg, past), c) {
      assert SourceAsks(cfg, calls)[|SourceAsks(cfg, past)|].victim == c.sourceVictim;
    }
  }

  lemma FewCallersRefineOracle(cfg: Config, calls: seq<Call>)
    requires IsTrace(cfg, calls) && CalledInOrder(calls) && Roomy(calls)
    requires cfg.capacity >= 1 && cfg.globalCapacity >= 1
    ensures Log(cfg, calls) == OracleLog(cfg, Requests(calls))
  {
    FewCallersNobodyEvicted(cfg, calls);
    LimiterRefinesOracle(cfg, calls);
  }

  // ----- bounds under eviction -----

  /** One session in one minute: its capacity, and once more for every time its bucket was thrown out. */
  lemma SessionBound(cfg: Config, calls: seq<Call>, session: string, minute: nat)
    requires IsTrace(cfg, calls) && CalledInOrder(calls) && cfg.capacity >= 1
    ensures Spent(Log(cfg, calls), OfSession(session, minute))
         <= cfg.capacity * (Evictions(SessionAsks(cfg, calls), session, minute) + 1)
  {
    SessionsProject(cfg, calls);
    AsksInOrder(cfg, calls);
    GrantsBounded(cfg.capacity, SessionAsks(cfg, calls), session, minute);
    SessionCountsAgree(cfg, calls, session, minute);
  }

  lemma SourceBound(cfg: Config, calls: seq<Call>, source: IpAddr, minute: nat)
    requires IsTrace(cfg, calls) && CalledInOrder(calls) && cfg.capacity >= 1
    ensures Spent(Log(cfg, calls), OfSource(source, minute))
         <= cfg.capacity * (Evictions(SourceAsks(cfg, calls), source, minute) + 1)
  {
    SourcesProject(cfg, calls);
    AsksInOrder(cfg, calls);
    GrantsBounded(cfg.capacity, SourceAsks(cfg, calls), source, minute);
    SourceCountsAgree(cfg, calls, source, minute);
  }

  // ----- conservation -----

  ghost predicate SameTokens<K>(m: Buckets<K>, m': Buckets<K>, k: K) {
    k in m && k in m' ==> m[k].tokens == m'[k].tokens && m[k].window == m'[k].window
  }

  /** A bucket that was there keeps its tokens, unless it is the one being charged. */
  ghost predicate OnlyCharges<K(!new)>(m: Buckets<K>, m': Buckets<K>, key: K, capacity: u32, nowMs: u64) {
    && key in m'
    && m'[key].window == Minute(nowMs)
    && m'[key].tokens
       == (if key in m then m[key].Available(capacity, nowMs, SESSION_SOURCE_WINDOW_MS) else capacity) - 1
    && forall k :: k != key ==> SameTokens(m, m', k)
  }

  /** A grant takes exactly one token in each of the three dimensions and nothing anywhere else. */
  lemma GrantSpendsThree(cfg: Config, s: State, c: Call)
    requires CallAllowed(cfg, s, c) && Allow(cfg, s, c).granted
    requires cfg.capacity >= 1 && cfg.globalCapacity >= 1
    ensures var s', r := Allow(cfg, s, c).state, c.request;
            && OnlyCharges(s.sessions, s'.sessions, r.session, cfg.capacity, r.nowMs)
            && OnlyCharges(s.sources, s'.sources, FoldIp(r.source), cfg.capacity, r.nowMs)
            && s'.global.window == Second(r.nowMs)
            && s'.global.tokens == s.global.Available(cfg.globalCapacity, r.nowMs, GLOBAL_WINDOW_MS) - 1
  {
  }

  /** A refusal takes no token from any bucket that survives it, and never touches the global one. */
  lemma RefusalSpendsNothing(cfg: Config, s: State, c: Call)
    requires CallAllowed(cfg, s, c) && !Allow(cfg, s, c).granted
    ensures var s' := Allow(cfg, s, c).state;
            && s'.global == s.global
            && (forall k :: SameTokens(s.sessions, s'.sessions, k))
            && (forall k :: SameTokens(s.sources, s'.sources, k))
  {
  }

  lemma SessionTokensConserved(cfg: Config, calls: seq<Call>, w: nat)
    requires IsTrace(cfg, calls) && CalledInOrder(calls) && NobodyEvicted(calls) && cfg.capacity >= 1
    requires w == Minute(TraceNow(calls))
    ensures SpentTotal(StateAfter(cfg, calls).sessions, cfg.capacity, w) == Spent(Log(cfg, calls), OfMinute(w))
  {
    NoVictimsNoEvictions(cfg, calls);
    SessionsProject(cfg, calls);
    AsksInOrder(cfg, calls);
    AsksByNow(cfg, calls);
    MinuteMonotone(Now(SessionAsks(cfg, calls)), TraceNow(calls));
    SpentIsGranted(cfg.capacity, SessionAsks(cfg, calls), w);
    SessionCountsAgree(cfg, calls, "", w);
  }

  lemma SourceTokensConserved(cfg: Config, calls: seq<Call>, w: nat)
    requires IsTrace(cfg, calls) && CalledInOrder(calls) && NobodyEvicted(calls) && cfg.capacity >= 1
    requires w == Minute(TraceNow(calls))
    ensures SpentTotal(StateAfter(cfg, calls).sources, cfg.capacity, w) == Spent(Log(cfg, calls), OfMinute(w))
  {
    NoVictimsNoEvictions(cfg, calls);
    SourcesProject(cfg, calls);
    AsksInOrder(cfg, calls);
    AsksByNow(cfg, calls);
    MinuteMonotone(Now(SourceAsks(cfg, calls)), TraceNow(calls));
    SpentIsGranted(cfg.capacity, SourceAsks(cfg, calls), w);
    SourceCountsAgree(cfg, calls, V4([0, 0, 0, 0]), w);
  }

  /** What the session buckets have handed out this minute is what the source buckets have. */
  lemma MinuteConserved(cfg: Config, calls: seq<Call>)
    requires IsTrace(cfg, calls) && CalledInOrder(calls) && NobodyEvicted(calls) && cfg.capacity >= 1
    ensures var s, w := StateAfter(cfg, calls), Minute(TraceNow(calls));
            && SpentTotal(s.sessions, cfg.capacity, w) == Spent(Log(cfg, calls), OfMinute(w))
            && SpentTotal(s.sources, cfg.capacity, w) == Spent(Log(cfg, calls), OfMinute(w))
  {
    SessionTokensConserved(cfg, calls, Minute(TraceNow(calls)));
    SourceTokensConserved(cfg, calls, Minute(TraceNow(calls)));
  }

  lemma AsksByNow(cfg: Config, calls: seq<Call>)
    requires CalledInOrder(calls)
    ensures Now(SourceAsks(cfg, calls)) <= TraceNow(calls)
    ensures Now(SessionAsks(cfg, calls)) <= TraceNow(calls)
  {
  }

  // ----- who has to leave, and how full the maps get -----

  lemma {:induction false} MapsStayBounded(cfg: Config, calls: seq<Call>)
    requires IsTrace(cfg, calls)
    ensures |StateAfter(cfg, calls).sessions| <= 4096 && |StateAfter(cfg, calls).sources| <= 4096
  {
    SessionsProject(cfg, calls);
    SourcesProject(cfg, calls);
    SizeBound(cfg.capacity, SessionAsks(cfg, calls));
    SizeBound(cfg.capacity, SourceAsks(cfg, calls));
  }

  /** `t` is when `victim` was last attended to, and a mapful of other keys has asked since. */
  ghost predicate FairlyEvicted<K(!new)>(capacity: u32, past: seq<Ask<K>>, asks: seq<Ask<K>>, victim: K) {
    var t := LastTouch(capacity, past, victim);
    && t.Some?
    && exists others: set<K> ::
        && victim !in others && |others| >= MAX_TRACKED_SOURCES
        && forall k :: k in others ==> AskedSince(asks, k, t.value)
  }

  /**
   * A session or source whose bucket was created, charged or refused at time `t` is forgotten only
   * after `MAX_TRACKED_SOURCES` others have asked at `t` or later.
   */
  lemma EvictionIsFair(cfg: Config, calls: seq<Call>)
    requires calls != [] && IsTrace(cfg, calls) && CalledInOrder(calls)
    ensures Last(calls).sessionVictim.Some? ==>
              FairlyEvicted(cfg.capacity, SessionAsks(cfg, Front(calls)), SessionAsks(cfg, calls),
                            Last(calls).sessionVictim.value)
    ensures Last(calls).sourceVictim.Some? ==>
              FairlyEvicted(cfg.capacity, SourceAsks(cfg, Front(calls)), SourceAsks(cfg, calls),
                            Last(calls).sourceVictim.value)
  {
    var past, c := Front(calls), Last(calls);
    SessionsProject(cfg, calls);
    SourcesProject(cfg, calls);
    AsksInOrder(cfg, calls);
    if c.sessionVictim.Some? {
      assert Front(SessionAsks(cfg, calls)) == SessionAsks(cfg, past);
      EvictionGuarantee(cfg.capacity, SessionAsks(cfg, calls));
    }
    if c.sourceVictim.Some? {
      assert Front(SourceAsks(cfg, calls)) == SourceAsks(cfg, past);
      EvictionGuarantee(cfg.capacity, SourceAsks(cfg, calls));
    }
  }
}
