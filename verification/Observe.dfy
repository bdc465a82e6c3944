/**
 * The observation limiter: an independent budget per session, one per source address, and a
 * global one that is consulted last. `State` and `Allow` say what one call does; the class does it
 * in place and remembers, in a ghost field, every call it was given.
 */
module Observe {
  import opened Prelude
  import opened Scope
  import opened TokenBuckets

  datatype Config = Config(capacity: u32, globalCapacity: u32)

  datatype Request = Request(session: string, source: IpAddr, nowMs: u64)

  /** A request, and whom each map evicted to make room for it. */
  datatype Call = Call(request: Request, sessionVictim: Option<string>, sourceVictim: Option<IpAddr>)

  datatype State = State(sessions: Buckets<string>, sources: Buckets<IpAddr>, global: TokenBucket)

  datatype Outcome = Outcome(state: State, granted: bool)

  function Initial(cfg: Config): State {
    State(map[], map[], TokenBucket(cfg.globalCapacity, 0, 0))
  }

  /** What the session map is asked; `granted` is the verdict of all three dimensions together. */
  function SessionAsk(c: Call, granted: bool): Ask<string> {
    Ask(c.request.session, c.request.nowMs, c.sessionVictim, granted)
  }

  function SourceAsk(c: Call, granted: bool): Ask<IpAddr> {
    Ask(FoldIp(c.request.source), c.request.nowMs, c.sourceVictim, granted)
  }

  predicate SessionPermits(cfg: Config, s: State, c: Call) {
    Permits(s.sessions, cfg.capacity, SessionAsk(c, false))
  }

  predicate SourcePermits(cfg: Config, s: State, c: Call) {
    Permits(s.sources, cfg.capacity, SourceAsk(c, false))
  }

  predicate GlobalPermits(s: State, c: Call) {
    s.global.Peek(c.request.nowMs, GLOBAL_WINDOW_MS)
  }

  /** One call: session first, then source, then global, and a token in each only if all permit. */
  function Allow(cfg: Config, s: State, c: Call): Outcome {
    var cap, now, session, source := cfg.capacity, c.request.nowMs, c.request.session, FoldIp(c.request.source);
    var sessions := BucketFor(s.sessions, session, cap, now, c.sessionVictim);
    if !sessions[session].Peek(now, SESSION_SOURCE_WINDOW_MS) then
      Outcome(s.(sessions := sessions[session := sessions[session].Touch(now)]), false)
    else
      var sources := BucketFor(s.sources, source, cap, now, c.sourceVictim);
      if !sources[source].Peek(now, SESSION_SOURCE_WINDOW_MS) then
        Outcome(State(sessions, sources[source := sources[source].Touch(now)], s.global), false)
      else if !s.global.Peek(now, GLOBAL_WINDOW_MS) then
        Outcome(State(sessions, sources, s.global), false)
      else
        Outcome(State(sessions[session := sessions[session].Spend(cap, now, SESSION_SOURCE_WINDOW_MS)],
                      sources[source := sources[source].Spend(cap, now, SESSION_SOURCE_WINDOW_MS)],
                      s.global.Spend(cfg.globalCapacity, now, GLOBAL_WINDOW_MS)), true)
  }

  /** The victims named by a call are ones the maps could have chosen. */
  ghost predicate CallAllowed(cfg: Config, s: State, c: Call) {
    && VictimAllowed(s.sessions, c.request.session, c.sessionVictim)
    && if SessionPermits(cfg, s, c) then VictimAllowed(s.sources, FoldIp(c.request.source), c.sourceVictim)
       else c.sourceVictim.None?
  }

  // ----- runs -----

  function StateAfter(cfg: Config, calls: seq<Call>): State {
    if calls == [] then Initial(cfg) else Allow(cfg, StateAfter(cfg, Front(calls)), Last(calls)).state
  }

  function Granted(cfg: Config, past: seq<Call>, c: Call): bool {
    Allow(cfg, StateAfter(cfg, past), c).granted
  }

  ghost predicate IsTrace(cfg: Config, calls: seq<Call>) {
    calls == [] ||
    (IsTrace(cfg, Front(calls)) && CallAllowed(cfg, StateAfter(cfg, Front(calls)), Last(calls)))
  }

  lemma TraceExtends(cfg: Config, calls: seq<Call>, c: Call)
    requires IsTrace(cfg, calls) && CallAllowed(cfg, StateAfter(cfg, calls), c)
    ensures IsTrace(cfg, calls + [c])
    ensures StateAfter(cfg, calls + [c]) == Allow(cfg, StateAfter(cfg, calls), c).state
  {
  }

  class ObserveLimiter {
    const cfg: Config
    var perSession: Buckets<string>
    var perSource: Buckets<IpAddr>
    var global: TokenBucket
    ghost var calls: seq<Call>

    /** The fields are what the calls so far lead to. */
    ghost predicate Valid()
      reads this
    {
      IsTrace(cfg, calls) && State(perSession, perSource, global) == StateAfter(cfg, calls)
    }

    constructor (perSessionAndSourcePerMinute: u32, globalPerSecond: u32)
      ensures Valid() && calls == []
      ensures cfg == Config(perSessionAndSourcePerMinute, globalPerSecond)
    {
      cfg := Config(perSessionAndSourcePerMinute, globalPerSecond);
      perSession, perSource := map[], map[];
      global := TokenBucket(globalPerSecond, 0, 0);
      calls := [];
    }

    /** Whether `session`, connected from `source`, may have another answer at `nowMs`. */
    method Allow(session: string, source: IpAddr, nowMs: u64) returns (granted: bool)
      requires Valid()
      modifies this
      ensures Valid()
      ensures |calls| == |old(calls)| + 1 && calls[..|old(calls)|] == old(calls)
      ensures Last(calls).request == Request(session, source, nowMs)
      ensures granted == Granted(cfg, old(calls), Last(calls))
    {
      hide FoldIp, BucketFor, VictimAllowed, IsTrace, StateAfter;
      var source' := FoldIp(source);
      ghost var past := calls;
      var sessions, sessionVictim := GetOrCreate(perSession, session, cfg.capacity, nowMs);
      perSession := sessions;
      ghost var call := Call(Request(session, source, nowMs), sessionVictim, None);
      if !perSession[session].Peek(nowMs, SESSION_SOURCE_WINDOW_MS) {
        perSession := perSession[session := perSession[session].Touch(nowMs)];
        calls := calls + [call];
        TraceExtends(cfg, past, call);
        return false;
      }
      var sources, sourceVictim := GetOrCreate(perSource, source', cfg.capacity, nowMs);
      perSource := sources;
      call := call.(sourceVictim := sourceVictim);
      calls := calls + [call];
      TraceExtends(cfg, past, call);
      if !perSource[source'].Peek(nowMs, SESSION_SOURCE_WINDOW_MS) {
        perSource := perSource[source' := perSource[source'].Touch(nowMs)];
        return false;
      }
      if !global.Peek(nowMs, GLOBAL_WINDOW_MS) {
        return false;
      }
      Commit(session, source', nowMs);
      return true;
    }

    /** All three permit: take a token in each. Both keys are tracked by now. */
    method Commit(session: string, source: IpAddr, nowMs: u64)
      requires session in perSession && source in perSource
      modifies this
      ensures calls == old(calls)
      ensures perSession == old(perSession)[session :=
                old(perSession)[session].Spend(cfg.capacity, nowMs, SESSION_SOURCE_WINDOW_MS)]
      ensures perSource == old(perSource)[source :=
                old(perSource)[source].Spend(cfg.capacity, nowMs, SESSION_SOURCE_WINDOW_MS)]
      ensures global == old(global).Spend(cfg.globalCapacity, nowMs, GLOBAL_WINDOW_MS)
    {
      var sessions, v1 := GetOrCreate(perSession, session, cfg.capacity, nowMs);
      CommitNeverEvicts(perSession, session, cfg.capacity, nowMs, v1);
      perSession := sessions[session := sessions[session].Spend(cfg.capacity, nowMs, SESSION_SOURCE_WINDOW_MS)];
      var sources, v2 := GetOrCreate(perSource, source, cfg.capacity, nowMs);
      CommitNeverEvicts(perSource, source, cfg.capacity, nowMs, v2);
      perSource := sources[source := sources[source].Spend(cfg.capacity, nowMs, SESSION_SOURCE_WINDOW_MS)];
      global := global.Spend(cfg.globalCapacity, nowMs, GLOBAL_WINDOW_MS);
    }
  }
}
