/**
 * Every answer of the limiter, from what can be seen of its past: who asked, when, from where, what
 * was granted, and who was evicted. For all capacities, and whoever is evicted.
 */
module History {
  import opened Prelude
  import opened Scope
  import opened TokenBuckets
  import opened Observe
  import opened ObserveRuns

  /** One line of the history: a request with its answer, and whom each map evicted for it. */
  datatype Line = Line(entry: Entry, sessionVictim: Option<string>, sourceVictim: Option<IpAddr>)

  function LineOf(c: Call, granted: bool): Line {
    Line(EntryOf(c.request, granted), c.sessionVictim, c.sourceVictim)
  }

  /** What a run of the limiter looks like from outside. */
  function Lines(cfg: Config, calls: seq<Call>): seq<Line> {
    if calls == [] then []
    else Lines(cfg, Front(calls)) + [LineOf(Last(calls), Granted(cfg, Front(calls), Last(calls)))]
  }

  // ----- the oracle -----

  /** Grants to `session` in `minute` since it was last evicted. */
  function SessionSpent(lines: seq<Line>, session: string, minute: nat): nat {
    if lines == [] then 0
    else
      var line := Last(lines);
      (if line.sessionVictim == Some(session) then 0 else SessionSpent(Front(lines), session, minute))
      + if Charges(OfSession(session, minute), line.entry) then 1 else 0
  }

  /** Grants to `source` in `minute` since it was last evicted. */
  function SourceSpent(lines: seq<Line>, source: IpAddr, minute: nat): nat {
    if lines == [] then 0
    else
      var line := Last(lines);
      (if line.sourceVictim == Some(source) then 0 else SourceSpent(Front(lines), source, minute))
      + if Charges(OfSource(source, minute), line.entry) then 1 else 0
  }

  function SecondSpent(lines: seq<Line>, second: nat): nat {
    if lines == [] then 0
    else SecondSpent(Front(lines), second) + if Charges(OfSecond(second), Last(lines).entry) then 1 else 0
  }

  /** When `session`, since it was last evicted, first asked or, if it was granted anything, was last granted. */
  function SessionStamp(lines: seq<Line>, session: string): Option<u64> {
    if lines == [] then None
    else
      var line := Last(lines);
      var past := if line.sessionVictim == Some(session) then None else SessionStamp(Front(lines), session);
      if line.entry.session == session && (past.None? || line.entry.granted) then Some(line.entry.nowMs) else past
  }

  predicate LaterMinute(stamp: Option<u64>, nowMs: u64) {
    stamp.Some? && Minute(stamp.value) != Minute(nowMs)
  }

  /** The same for a source. An ask reaches the source's budget only past the session's, here one of zero. */
  function SourceStamp(lines: seq<Line>, source: IpAddr): Option<u64> {
    if lines == [] then None
    else
      var line := Last(lines);
      var e := line.entry;
      var past := if line.sourceVictim == Some(source) then None else SourceStamp(Front(lines), source);
      if e.source == source && LaterMinute(SessionStamp(Front(lines), e.session), e.nowMs) && (past.None? || e.granted)
      then Some(e.nowMs) else past
  }

  /** The second of the last grant, or the clock's first. */
  function GrantSecond(lines: seq<Line>): nat {
    if lines == [] then 0
    else if Last(lines).entry.granted then Second(Last(lines).entry.nowMs) else GrantSecond(Front(lines))
  }

  predicate SessionOpen(cfg: Config, lines: seq<Line>, r: Request) {
    if cfg.capacity == 0 then LaterMinute(SessionStamp(lines, r.session), r.nowMs)
    else SessionSpent(lines, r.session, Minute(r.nowMs)) < cfg.capacity
  }

  predicate SourceOpen(cfg: Config, lines: seq<Line>, r: Request) {
    if cfg.capacity == 0 then LaterMinute(SourceStamp(lines, FoldIp(r.source)), r.nowMs)
    else SourceSpent(lines, FoldIp(r.source), Minute(r.nowMs)) < cfg.capacity
  }

  predicate GlobalOpen(cfg: Config, lines: seq<Line>, r: Request) {
    if cfg.globalCapacity == 0 then GrantSecond(lines) != Second(r.nowMs)
    else SecondSpent(lines, Second(r.nowMs)) < cfg.globalCapacity
  }

  /** The history as it has to be, given who asked and who was evicted. */
  function Foretold(cfg: Config, calls: seq<Call>): seq<Line> {
    if calls == [] then []
    else
      var lines, c := Foretold(cfg, Front(calls)), Last(calls);
      var r := c.request;
      lines + [LineOf(c, SessionOpen(cfg, lines, r) && SourceOpen(cfg, lines, r) && GlobalOpen(cfg, lines, r))]
  }

  // ----- the maps follow the history -----

  lemma LinesLast(cfg: Config, calls: seq<Call>)
    requires calls != []
    ensures Lines(cfg, calls) != [] && Front(Lines(cfg, calls)) == Lines(cfg, Front(calls))
    ensures Last(Lines(cfg, calls)) == LineOf(Last(calls), Granted(cfg, Front(calls), Last(calls)))
  {
  }

  lemma {:induction false} SessionSpentAgrees(cfg: Config, calls: seq<Call>, key: string, w: nat)
    ensures GrantsSince(SessionAsks(cfg, calls), key, w) == SessionSpent(Lines(cfg, calls), key, w)
  {
    hide Granted;
    if calls != [] {
      var past := Front(calls);
      SessionSpentAgrees(cfg, past, key, w);
      LinesLast(cfg, calls);
      assert Front(SessionAsks(cfg, calls)) == SessionAsks(cfg, past);
    }
  }

  lemma {:induction false} SourceSpentAgrees(cfg: Config, calls: seq<Call>, key: IpAddr, w: nat)
    requires IsTrace(cfg, calls)
    ensures GrantsSince(SourceAsks(cfg, calls), key, w) == SourceSpent(Lines(cfg, calls), key, w)
  {
    hide Granted, SessionPermits, SourcePermits, GlobalPermits, FoldIp, StateAfter;
    if calls != [] {
      var past, c := Front(calls), Last(calls);
      SourceSpentAgrees(cfg, past, key, w);
      LinesLast(cfg, calls);
      GrantedNeedsAll(cfg, past, c);
      if SessionPermits(cfg, StateAfter(cfg, past), c) {
        assert Front(SourceAsks(cfg, calls)) == SourceAsks(cfg, past);
      }
    }
  }

  lemma GrantedNeedsAll(cfg: Config, past: seq<Call>, c: Call)
    ensures Granted(cfg, past, c) <==> SessionPermits(cfg, StateAfter(cfg, past), c)
                                       && SourcePermits(cfg, StateAfter(cfg, past), c)
                                       && GlobalPermits(StateAfter(cfg, past), c)
  {
    GrantedIffAllPermit(cfg, StateAfter(cfg, past), c);
  }

  lemma {:induction false} SecondSpentAgrees(cfg: Config, calls: seq<Call>, second: nat)
    ensures SecondSpent(Lines(cfg, calls), second) == Spent(Log(cfg, calls), OfSecond(second))
  {
    hide Granted;
    if calls != [] {
      SecondSpentAgrees(cfg, Front(calls), second);
      LinesLast(cfg, calls);
      LogLast(cfg, calls, OfSecond(second));
    }
  }

  // ----- positive capacities -----

  lemma PositiveSession(cfg: Config, calls: seq<Call>)
    requires calls != [] && IsTrace(cfg, calls) && CalledInOrder(calls) && cfg.capacity >= 1
    ensures var past, c := Front(calls), Last(calls);
            SessionPermits(cfg, StateAfter(cfg, past), c) <==> SessionOpen(cfg, Lines(cfg, past), c.request)
  {
    hide Granted, CalledInOrder, AskedInOrder, IsRun;
    var past, c := Front(calls), Last(calls);
    var asks, a := SessionAsks(cfg, past), SessionAsk(c, Granted(cfg, past, c));
    assert SessionAsks(cfg, calls) == asks + [a];
    SessionsProject(cfg, past);
    AsksInOrder(cfg, calls);
    PermitsSince(cfg.capacity, asks, a);
    SessionSpentAgrees(cfg, past, c.request.session, Minute(c.request.nowMs));
  }

  lemma PositiveSource(cfg: Config, calls: seq<Call>)
    requires calls != [] && IsTrace(cfg, calls) && CalledInOrder(calls) && cfg.capacity >= 1
    requires SessionPermits(cfg, StateAfter(cfg, Front(calls)), Last(calls))
    ensures var past, c := Front(calls), Last(calls);
            SourcePermits(cfg, StateAfter(cfg, past), c) <==> SourceOpen(cfg, Lines(cfg, past), c.request)
  {
    hide Granted, CalledInOrder, AskedInOrder, IsRun, FoldIp, SessionPermits;
    var past, c := Front(calls), Last(calls);
    var asks, a := SourceAsks(cfg, past), SourceAsk(c, Granted(cfg, past, c));
    assert SourceAsks(cfg, calls) == asks + [a];
    SourcesProject(cfg, past);
    AsksInOrder(cfg, calls);
    PermitsSince(cfg.capacity, asks, a);
    SourceSpentAgrees(cfg, past, FoldIp(c.request.source), Minute(c.request.nowMs));
  }

  // ----- zero capacities -----

  /** An empty bucket of the minute of `stamp`, or none. */
  ghost predicate Stamped<K>(m: Buckets<K>, key: K, stamp: Option<u64>) {
    && (key in m <==> stamp.Some?)
    && (key in m ==> m[key].tokens == 0 && m[key].window == Minute(stamp.value))
  }

  /** What an ask of a bucket without capacity leaves behind. */
  lemma StampStep<K>(m: Buckets<K>, a: Ask<K>, key: K, stamp: Option<u64>)
    requires Stamped(m, key, stamp) && VictimAllowed(m, a.key, a.victim)
    requires a.key == key && a.granted ==> Permits(m, 0, a)
    ensures var past := if a.victim == Some(key) then None else stamp;
            Stamped(Advance(m, 0, a), key, if a.key == key && (past.None? || a.granted) then Some(a.nowMs) else past)
  {
  }

  /** A call asks the session map, and the source map only if that one permits. */
  lemma AllowAsks(cfg: Config, s: State, c: Call)
    ensures var r := Allow(cfg, s, c);
            && r.state.sessions == Advance(s.sessions, cfg.capacity, SessionAsk(c, r.granted))
            && r.state.sources == (if SessionPermits(cfg, s, c)
                                   then Advance(s.sources, cfg.capacity, SourceAsk(c, r.granted)) else s.sources)
            && (r.granted ==> Permits(s.sessions, cfg.capacity, SessionAsk(c, true))
                              && Permits(s.sources, cfg.capacity, SourceAsk(c, true)))
  {
  }

  lemma {:induction false} SessionIsStamped(cfg: Config, calls: seq<Call>, session: string)
    requires IsTrace(cfg, calls) && cfg.capacity == 0
    ensures Stamped(StateAfter(cfg, calls).sessions, session, SessionStamp(Lines(cfg, calls), session))
  {
    hide Allow, Advance, Permits, FoldIp, VictimAllowed;
    if calls != [] {
      hide Stamped;
      var past, c := Front(calls), Last(calls);
      SessionIsStamped(cfg, past, session);
      AllowAsks(cfg, StateAfter(cfg, past), c);
      StampStep(StateAfter(cfg, past).sessions, SessionAsk(c, Granted(cfg, past, c)), session,
                SessionStamp(Lines(cfg, past), session));
      LinesLast(cfg, calls);
    }
  }

  lemma StampedPermits<K>(m: Buckets<K>, a: Ask<K>, stamp: Option<u64>)
    requires Stamped(m, a.key, stamp) && VictimAllowed(m, a.key, a.victim)
    ensures Permits(m, 0, a) <==> LaterMinute(stamp, a.nowMs)
  {
  }

  lemma ZeroSession(cfg: Config, past: seq<Call>, c: Call)
    requires IsTrace(cfg, past) && CallAllowed(cfg, StateAfter(cfg, past), c) && cfg.capacity == 0
    ensures SessionPermits(cfg, StateAfter(cfg, past), c) <==> SessionOpen(cfg, Lines(cfg, past), c.request)
  {
    hide Lines, StateAfter, Permits, Stamped, VictimAllowed;
    SessionIsStamped(cfg, past, c.request.session);
    StampedPermits(StateAfter(cfg, past).sessions, SessionAsk(c, false),
                   SessionStamp(Lines(cfg, past), c.request.session));
  }

  lemma {:induction false} SourceIsStamped(cfg: Config, calls: seq<Call>, source: IpAddr)
    requires IsTrace(cfg, calls) && cfg.capacity == 0
    ensures Stamped(StateAfter(cfg, calls).sources, source, SourceStamp(Lines(cfg, calls), source))
  {
    hide Allow, Advance, Permits, SessionPermits, SourcePermits, FoldIp, LaterMinute, SessionStamp, VictimAllowed;
    if calls != [] {
      hide Stamped;
      var past, c := Front(calls), Last(calls);
      var s, granted := StateAfter(cfg, past), Granted(cfg, past, c);
      SourceIsStamped(cfg, past, source);
      ZeroSession(cfg, past, c);
      AllowAsks(cfg, s, c);
      if SessionPermits(cfg, s, c) {
        StampStep(s.sources, SourceAsk(c, granted), source, SourceStamp(Lines(cfg, past), source));
      }
      LinesLast(cfg, calls);
    }
  }

  lemma ZeroSource(cfg: Config, past: seq<Call>, c: Call)
    requires IsTrace(cfg, past) && CallAllowed(cfg, StateAfter(cfg, past), c) && cfg.capacity == 0
    requires SessionPermits(cfg, StateAfter(cfg, past), c)
    ensures SourcePermits(cfg, StateAfter(cfg, past), c) <==> SourceOpen(cfg, Lines(cfg, past), c.request)
  {
    hide Lines, StateAfter, Permits, Stamped, FoldIp, VictimAllowed, SessionPermits;
    var source := FoldIp(c.request.source);
    SourceIsStamped(cfg, past, source);
    StampedPermits(StateAfter(cfg, past).sources, SourceAsk(c, false), SourceStamp(Lines(cfg, past), source));
  }

  lemma {:induction false} GlobalIsStamped(cfg: Config, calls: seq<Call>)
    requires cfg.globalCapacity == 0
    ensures StateAfter(cfg, calls).global.tokens == 0
    ensures StateAfter(cfg, calls).global.window == GrantSecond(Lines(cfg, calls))
  {
    if calls != [] {
      GlobalIsStamped(cfg, Front(calls));
      LinesLast(cfg, calls);
    }
  }

  // ----- all of them -----

  lemma OpenIffPermits(cfg: Config, calls: seq<Call>)
    requires calls != [] && IsTrace(cfg, calls) && CalledInOrder(calls)
    ensures var past, c := Front(calls), Last(calls);
            && (SessionPermits(cfg, StateAfter(cfg, past), c) <==> SessionOpen(cfg, Lines(cfg, past), c.request))
            && (SessionPermits(cfg, StateAfter(cfg, past), c) ==>
                 (SourcePermits(cfg, StateAfter(cfg, past), c) <==> SourceOpen(cfg, Lines(cfg, past), c.request)))
            && (GlobalPermits(StateAfter(cfg, past), c) <==> GlobalOpen(cfg, Lines(cfg, past), c.request))
  {
    hide Lines, StateAfter, CalledInOrder, SessionPermits, SourcePermits, CallAllowed, SessionOpen, SourceOpen;
    var past, c := Front(calls), Last(calls);
    if cfg.capacity == 0 {
      ZeroSession(cfg, past, c);
      if SessionPermits(cfg, StateAfter(cfg, past), c) {
        ZeroSource(cfg, past, c);
      }
    } else {
      PositiveSession(cfg, calls);
      if SessionPermits(cfg, StateAfter(cfg, past), c) {
        PositiveSource(cfg, calls);
      }
    }
    if cfg.globalCapacity == 0 {
      GlobalIsStamped(cfg, past);
    } else {
      GlobalOracle(cfg, calls);
      SecondSpentAgrees(cfg, past, Second(c.request.nowMs));
    }
  }

  /**
   * The history decides every answer of every run, evictions included, for all capacities. With a
   * positive capacity a key is open while what it was granted in this minute since its last eviction
   * leaves budget, so whoever is new or was evicted has the whole of it. A budget of zero denies a
   * key that is new, or that was first seen or last granted something in this very minute (the
   * global one: in this very second).
   */
  lemma {:induction false} HistoryDecides(cfg: Config, calls: seq<Call>)
    requires IsTrace(cfg, calls) && CalledInOrder(calls)
    ensures Lines(cfg, calls) == Foretold(cfg, calls)
  {
    hide SessionPermits, SourcePermits, GlobalPermits, SessionOpen, SourceOpen, GlobalOpen, CallAllowed, CalledInOrder,
         Granted, StateAfter, LineOf;
    if calls != [] {
      var past, c := Front(calls), Last(calls);
      PastInOrder(calls);
      HistoryDecides(cfg, past);
      OpenIffPermits(cfg, calls);
      GrantedNeedsAll(cfg, past, c);
    }
  }

  /** Since it was last evicted, or ever, the session never asked. */
  predicate NewSession(lines: seq<Line>, session: string) {
    lines == [] || Last(lines).sessionVictim == Some(session)
    || (Last(lines).entry.session != session && NewSession(Front(lines), session))
  }

  predicate NewSource(lines: seq<Line>, source: IpAddr) {
    lines == [] || Last(lines).sourceVictim == Some(source)
    || (Last(lines).entry.source != source && NewSource(Front(lines), source))
  }

  lemma {:induction false} NewHasSpentNothing(cfg: Config, calls: seq<Call>, session: string, source: IpAddr, w: nat)
    requires IsTrace(cfg, calls)
    ensures NewSession(Lines(cfg, calls), session) ==> SessionSpent(Lines(cfg, calls), session, w) == 0
    ensures NewSource(Lines(cfg, calls), source) ==> SourceSpent(Lines(cfg, calls), source, w) == 0
  {
    hide Allow, Permits, FoldIp;
    if calls != [] {
      NewHasSpentNothing(cfg, Front(calls), session, source, w);
      LinesLast(cfg, calls);
      VictimIsNotTheAsker(cfg, StateAfter(cfg, Front(calls)), Last(calls));
    }
  }

  lemma VictimIsNotTheAsker(cfg: Config, s: State, c: Call)
    requires CallAllowed(cfg, s, c)
    ensures c.sessionVictim != Some(c.request.session) && c.sourceVictim != Some(FoldIp(c.request.source))
  {
    hide FoldIp;
  }

  /** A newcomer from a new source is answered whenever the second has anything left, however full the maps. */
  lemma NewcomerGranted(cfg: Config, calls: seq<Call>)
    requires calls != [] && IsTrace(cfg, calls) && CalledInOrder(calls)
    requires cfg.capacity >= 1 && cfg.globalCapacity >= 1
    requires NewSession(Lines(cfg, Front(calls)), Last(calls).request.session)
    requires NewSource(Lines(cfg, Front(calls)), FoldIp(Last(calls).request.source))
    ensures Granted(cfg, Front(calls), Last(calls))
       <==> SecondSpent(Lines(cfg, Front(calls)), Second(Last(calls).request.nowMs)) < cfg.globalCapacity
  {
    hide Lines, SessionPermits, SourcePermits, GlobalPermits, Granted, StateAfter, NewSession, NewSource, CalledInOrder,
         SessionSpent, SourceSpent, SecondSpent, CallAllowed, FoldIp;
    var past, r := Front(calls), Last(calls).request;
    OpenIffPermits(cfg, calls);
    GrantedNeedsAll(cfg, past, Last(calls));
    NewHasSpentNothing(cfg, past, r.session, FoldIp(r.source), Minute(r.nowMs));
  }

  /**
   * A call to a limiter without a narrow budget is denied exactly if its session or its source, since
   * it was last evicted, never asked before, or was first seen or last granted something in this
   * minute, or if the global budget is used up.
   */
  lemma ZeroNarrowCapacity(cfg: Config, calls: seq<Call>)
    requires calls != [] && IsTrace(cfg, calls) && CalledInOrder(calls) && cfg.capacity == 0
    ensures var lines, c, now := Lines(cfg, Front(calls)), Last(calls), Last(calls).request.nowMs;
            var session, source := SessionStamp(lines, c.request.session), SourceStamp(lines, FoldIp(c.request.source));
            !Granted(cfg, Front(calls), c)
            <==> session.None? || Minute(session.value) == Minute(now)
                 || source.None? || Minute(source.value) == Minute(now)
                 || !GlobalOpen(cfg, lines, c.request)
  {
    hide Lines, SessionPermits, SourcePermits, GlobalPermits, GlobalOpen, Granted, StateAfter, CalledInOrder,
         CallAllowed;
    OpenIffPermits(cfg, calls);
    GrantedNeedsAll(cfg, Front(calls), Last(calls));
  }
}
