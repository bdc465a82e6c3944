/**
 * Who is evicted, from what can be seen of the past. Together with the answers this says everything
 * about the limiter from outside: its runs are exactly those in which the oldest leaves.
 */
module Evictions {
  import opened Prelude
  import opened Scope
  import opened TokenBuckets
  import opened Observe
  import opened ObserveRuns
  import opened History

  // ----- who was seen when -----

  /**
   * Who is tracked and when each was last taken note of, after an ask of `key` for which `victim`
   * left. An ask counts as notice if it is the key's first, and otherwise if it is `noticed`.
   */
  function NextSeen<K(==)>(seen: map<K, u64>, victim: Option<K>, key: K, nowMs: u64, noticed: bool): map<K, u64> {
    var kept := if victim.Some? then seen - {victim.value} else seen;
    if key in kept && !noticed then kept else kept[key := nowMs]
  }

  function RequestOf(line: Line): Request {
    Request(line.entry.session, line.entry.source, line.entry.nowMs)
  }

  /** A session is noticed when it is granted something, and when its own budget refuses it; not when another does. */
  function SessionsSeen(cfg: Config, lines: seq<Line>): map<string, u64> {
    if lines == [] then map[]
    else
      var past, line := Front(lines), Last(lines);
      var e := line.entry;
      NextSeen(SessionsSeen(cfg, past), line.sessionVictim, e.session, e.nowMs,
               e.granted || !SessionOpen(cfg, past, RequestOf(line)))
  }

  /** The same for sources; an ask that the session's budget refuses does not reach them. */
  function SourcesSeen(cfg: Config, lines: seq<Line>): map<IpAddr, u64> {
    if lines == [] then map[]
    else
      var past, line := Front(lines), Last(lines);
      var e := line.entry;
      if !SessionOpen(cfg, past, RequestOf(line)) then SourcesSeen(cfg, past)
      else
        NextSeen(SourcesSeen(cfg, past), line.sourceVictim, e.source, e.nowMs,
                 e.granted || !SourceOpen(cfg, past, RequestOf(line)))
  }

  /** Nobody leaves for a key that is tracked or while there is room; else one not noticed for longest. */
  ghost predicate MayEvict<K(!new)>(seen: map<K, u64>, key: K, victim: Option<K>) {
    if key in seen || |seen| < 4096 then victim.None?
    else victim.Some? && victim.value in seen && forall k :: k in seen ==> seen[victim.value] <= seen[k]
  }

  /** In the whole run, whoever left was one not noticed for longest. */
  ghost predicate OldestLeave(cfg: Config, calls: seq<Call>) {
    calls == [] ||
    (var lines, c := Foretold(cfg, Front(calls)), Last(calls);
     && OldestLeave(cfg, Front(calls))
     && MayEvict(SessionsSeen(cfg, lines), c.request.session, c.sessionVictim)
     && if SessionOpen(cfg, lines, c.request)
        then MayEvict(SourcesSeen(cfg, lines), FoldIp(c.request.source), c.sourceVictim) else c.sourceVictim.None?)
  }

  // ----- the maps remember just that -----

  ghost predicate SameStamps<K(!new)>(m: Buckets<K>, seen: map<K, u64>) {
    m.Keys == seen.Keys && forall k :: k in m ==> m[k].lastSeenMs == seen[k]
  }

  lemma SeenStep<K(!new)>(m: Buckets<K>, capacity: u32, a: Ask<K>, seen: map<K, u64>)
    requires SameStamps(m, seen) && (a.granted ==> Permits(m, capacity, a))
    ensures SameStamps(Advance(m, capacity, a),
                       NextSeen(seen, a.victim, a.key, a.nowMs, a.granted || !Permits(m, capacity, a)))
  {
  }

  lemma VictimIff<K(!new)>(m: Buckets<K>, seen: map<K, u64>, key: K, victim: Option<K>)
    requires SameStamps(m, seen)
    ensures VictimAllowed(m, key, victim) <==> MayEvict(seen, key, victim)
  {
    assert |m| == |m.Keys| && |seen| == |seen.Keys|;
  }

  /** What the budgets say does not depend on how the source is spelled. */
  lemma OpenBySpelling(cfg: Config, lines: seq<Line>, c: Call, granted: bool)
    ensures SessionOpen(cfg, lines, RequestOf(LineOf(c, granted))) == SessionOpen(cfg, lines, c.request)
    ensures SourceOpen(cfg, lines, RequestOf(LineOf(c, granted))) == SourceOpen(cfg, lines, c.request)
  {
    hide SessionSpent, SourceSpent, SessionStamp, SourceStamp;
  }

  lemma PermitsEitherWay(cfg: Config, s: State, c: Call, granted: bool)
    ensures Permits(s.sessions, cfg.capacity, SessionAsk(c, granted)) <==> SessionPermits(cfg, s, c)
    ensures Permits(s.sources, cfg.capacity, SourceAsk(c, granted)) <==> SourcePermits(cfg, s, c)
  {
  }

  lemma NothingSeen(cfg: Config)
    ensures SameStamps(StateAfter(cfg, []).sessions, SessionsSeen(cfg, Lines(cfg, [])))
    ensures SameStamps(StateAfter(cfg, []).sources, SourcesSeen(cfg, Lines(cfg, [])))
  {
  }

  lemma {:induction false} StampsAgree(cfg: Config, calls: seq<Call>)
    requires IsTrace(cfg, calls) && CalledInOrder(calls)
    ensures SameStamps(StateAfter(cfg, calls).sessions, SessionsSeen(cfg, Lines(cfg, calls)))
    ensures SameStamps(StateAfter(cfg, calls).sources, SourcesSeen(cfg, Lines(cfg, calls)))
  {
    hide SameStamps, Allow, Advance, Permits, NextSeen, SessionOpen, SourceOpen, CalledInOrder, CallAllowed, FoldIp,
         SessionPermits, SourcePermits, GlobalPermits;
    if calls != [] {
      var past, c := Front(calls), Last(calls);
      var s, granted := StateAfter(cfg, past), Granted(cfg, past, c);
      PastInOrder(calls);
      StampsAgree(cfg, past);
      LinesLast(cfg, calls);
      AllowAsks(cfg, s, c);
      PermitsEitherWay(cfg, s, c, granted);
      GrantedNeedsAll(cfg, past, c);
      OpenIffPermits(cfg, calls);
      OpenBySpelling(cfg, Lines(cfg, past), c, granted);
      SeenStep(s.sessions, cfg.capacity, SessionAsk(c, granted), SessionsSeen(cfg, Lines(cfg, past)));
      if SessionPermits(cfg, s, c) {
        SeenStep(s.sources, cfg.capacity, SourceAsk(c, granted), SourcesSeen(cfg, Lines(cfg, past)));
      }
    } else {
      NothingSeen(cfg);
    }
  }

  // ----- runs, from outside -----

  /** There always is somebody who may leave. */
  lemma {:induction false} SomebodyIsOldest(seen: map<IpAddr, u64>) returns (k: IpAddr)
    requires seen != map[]
    ensures k in seen && forall j :: j in seen ==> seen[k] <= seen[j]
    decreases |seen|
  {
    k :| k in seen;
    var rest := seen - {k};
    assert forall j :: j in seen && j != k ==> j in rest;
    if rest != map[] {
      var j := SomebodyIsOldest(rest);
      if seen[j] < seen[k] {
        k := j;
      }
    }
  }

  lemma SomeVictim(seen: map<IpAddr, u64>, key: IpAddr) returns (victim: Option<IpAddr>)
    ensures MayEvict(seen, key, victim)
  {
    victim := None;
    if key !in seen && |seen| >= 4096 {
      var k := SomebodyIsOldest(seen);
      victim := Some(k);
    }
  }

  lemma InOrderAnyVictim(past: seq<Call>, c: Call, victim: Option<IpAddr>)
    requires CalledInOrder(past + [c])
    ensures CalledInOrder(past + [c.(sourceVictim := victim)])
  {
    var calls, calls' := past + [c], past + [c.(sourceVictim := victim)];
    forall i, j | 0 <= i < j < |calls'| ensures calls'[i].request.nowMs <= calls'[j].request.nowMs {
      assert calls[i].request.nowMs <= calls[j].request.nowMs;
    }
  }

  /** What the session's budget says is settled before anybody leaves the source map. */
  lemma SessionOpenIff(cfg: Config, past: seq<Call>, c: Call)
    requires IsTrace(cfg, past) && CalledInOrder(past) && CalledInOrder(past + [c])
    requires VictimAllowed(StateAfter(cfg, past).sessions, c.request.session, c.sessionVictim)
    ensures SessionPermits(cfg, StateAfter(cfg, past), c) <==> SessionOpen(cfg, Lines(cfg, past), c.request)
  {
    hide StateAfter, Lines, SessionOpen, FoldIp, Allow, VictimAllowed, MayEvict, SameStamps, SourcesSeen, CalledInOrder;
    var seen, source := SourcesSeen(cfg, Lines(cfg, past)), FoldIp(c.request.source);
    var victim: Option<IpAddr> := None;
    if SessionPermits(cfg, StateAfter(cfg, past), c) {
      victim := SomeVictim(seen, source);
    }
    StampsAgree(cfg, past);
    VictimIff(StateAfter(cfg, past).sources, seen, source, victim);
    var c' := c.(sourceVictim := victim);
    InOrderAnyVictim(past, c, victim);
    assert Front(past + [c']) == past;
    TraceExtends(cfg, past, c');
    OpenIffPermits(cfg, past + [c']);
  }

  /**
   * The runs of the limiter, from outside: in chronological order exactly those in which nobody
   * leaves while there is room, and otherwise one not noticed for longest. Together with
   * `HistoryDecides` this determines every answer and every eviction, but for ties, from what was
   * asked alone.
   */
  lemma {:induction false} RunsIff(cfg: Config, calls: seq<Call>)
    requires CalledInOrder(calls)
    ensures IsTrace(cfg, calls) <==> OldestLeave(cfg, calls)
  {
    hide StateAfter, Lines, Foretold, SessionOpen, FoldIp, VictimAllowed, MayEvict, SameStamps, SessionsSeen,
         SourcesSeen, CalledInOrder, SessionPermits;
    if calls != [] {
      var past, c := Front(calls), Last(calls);
      PastInOrder(calls);
      RunsIff(cfg, past);
      if IsTrace(cfg, past) {
        var s, lines := StateAfter(cfg, past), Lines(cfg, past);
        assert calls == past + [c];
        HistoryDecides(cfg, past);
        StampsAgree(cfg, past);
        VictimIff(s.sessions, SessionsSeen(cfg, lines), c.request.session, c.sessionVictim);
        VictimIff(s.sources, SourcesSeen(cfg, lines), FoldIp(c.request.source), c.sourceVictim);
        if VictimAllowed(s.sessions, c.request.session, c.sessionVictim) {
          SessionOpenIff(cfg, past, c);
        }
      }
    }
  }
}
