/**
 * What a limiter without a budget still gives. The source says it denies every request; but a bucket
 * that meets a window other than its own answers yes before it looks at its tokens.
 */
module ZeroCapacity {
  import opened Prelude
  import opened Scope
  import opened TokenBuckets
  import opened Observe
  import opened ObserveRuns

  // ----- how much a budget of zero still gives -----

  /** A bucket without capacity has granted its key at most one ask of minute `w`, and then belongs to it. */
  ghost predicate OnceAMinute(b: Option<TokenBucket>, w: nat, now: nat, g: nat) {
    && (b.Some? ==> b.value.tokens == 0 && b.value.window <= now)
    && g <= 1
    && (now < w ==> g == 0)
    && (now == w && g == 1 && b.Some? ==> b.value.window == w)
  }

  lemma OnceStep<K>(m: Buckets<K>, a: Ask<K>, key: K, w: nat, now: nat, g: nat)
    requires Feasible(m, 0, a) && now <= Minute(a.nowMs) && OnceAMinute(Lookup(m, key), w, now, g)
    ensures OnceAMinute(Lookup(Advance(m, 0, a), key), w, Minute(a.nowMs),
                        g + if a.granted && a.key == key && Minute(a.nowMs) == w then 1 else 0)
  {
  }

  /** However often its bucket is evicted. */
  lemma {:induction false} ZeroGrantsOnce<K>(asks: seq<Ask<K>>, key: K, w: nat)
    requires IsRun(0, asks) && AskedInOrder(asks)
    ensures OnceAMinute(Lookup(After(0, asks), key), w, Minute(Now(asks)), Grants(asks, key, w))
  {
    hide Advance, Feasible, Minute, OnceAMinute;
    if asks == [] {
      OnceAtFirst(w);
    } else {
      var past, a := Front(asks), Last(asks);
      ZeroGrantsOnce(past, key, w);
      MinuteMonotone(Now(past), a.nowMs);
      OnceStep(After(0, past), a, key, w, Minute(Now(past)), Grants(past, key, w));
    }
  }

  lemma OnceAtFirst(w: nat)
    ensures OnceAMinute(None, w, Minute(0), 0)
  {
  }

  /** The empty global bucket grants at most once in a second, and never in the clock's first. */
  ghost predicate OnceASecond(b: TokenBucket, w: nat, now: nat, g: nat) {
    && b.tokens == 0 && b.window <= now && g <= 1
    && (b.window < w || w == 0 ==> g == 0)
    && (b.window == w && w > 0 ==> g == 1)
  }

  lemma {:induction false} ZeroGlobalOnce(cfg: Config, calls: seq<Call>, w: nat)
    requires CalledInOrder(calls) && cfg.globalCapacity == 0
    ensures OnceASecond(StateAfter(cfg, calls).global, w, Second(TraceNow(calls)), Spent(Log(cfg, calls), OfSecond(w)))
  {
    hide CalledInOrder;
    if calls != [] {
      var past, c := Front(calls), Last(calls);
      PastInOrder(calls);
      ZeroGlobalOnce(cfg, past, w);
      SecondMonotone(TraceNow(past), c.request.nowMs);
      LogLast(cfg, calls, OfSecond(w));
    }
  }

  /** The first moment of the clock at which anything can be granted at all. */
  function Earliest(cfg: Config): u64 {
    if cfg.capacity == 0 then 2 * SESSION_SOURCE_WINDOW_MS else if cfg.globalCapacity == 0 then GLOBAL_WINDOW_MS else 0
  }

  /** Without narrow capacity a session is first seen in some minute, its source in a later one. */
  ghost predicate Empty(cfg: Config, s: State, now: u64) {
    && (cfg.capacity == 0 ==>
         && (forall k :: k in s.sessions ==> s.sessions[k].tokens == 0 && s.sessions[k].window <= Minute(now))
         && (forall k :: k in s.sources ==> s.sources[k].tokens == 0 && 1 <= s.sources[k].window <= Minute(now)))
    && (cfg.globalCapacity == 0 ==> s.global.tokens == 0)
  }

  lemma EmptyStep(cfg: Config, s: State, c: Call, now: u64)
    requires Empty(cfg, s, now) && now <= c.request.nowMs
    ensures Empty(cfg, Allow(cfg, s, c).state, c.request.nowMs)
    ensures Allow(cfg, s, c).granted && cfg.capacity == 0 ==> Minute(c.request.nowMs) >= 2
    ensures Allow(cfg, s, c).granted && cfg.globalCapacity == 0 ==> Second(c.request.nowMs) != s.global.window
  {
    MinuteMonotone(now, c.request.nowMs);
  }

  lemma {:induction false} StaysEmpty(cfg: Config, calls: seq<Call>)
    requires CalledInOrder(calls)
    ensures Empty(cfg, StateAfter(cfg, calls), TraceNow(calls))
  {
    hide Allow, Empty;
    if calls == [] {
      EmptyAtFirst(cfg);
    } else {
      var past, c := Front(calls), Last(calls);
      StaysEmpty(cfg, past);
      EmptyStep(cfg, StateAfter(cfg, past), c, TraceNow(past));
    }
  }

  lemma EmptyAtFirst(cfg: Config)
    ensures Empty(cfg, Initial(cfg), 0)
  {
  }

  /** Nothing is granted before that moment, in any run. */
  lemma {:induction false} NothingEarly(cfg: Config, calls: seq<Call>)
    requires CalledInOrder(calls)
    ensures forall e :: e in Log(cfg, calls) && e.granted ==> e.nowMs >= Earliest(cfg)
  {
    hide Allow, Empty;
    if calls != [] {
      var past, c := Front(calls), Last(calls);
      NothingEarly(cfg, past);
      StaysEmpty(cfg, past);
      EmptyStep(cfg, StateAfter(cfg, past), c, TraceNow(past));
      if cfg.globalCapacity == 0 {
        ZeroGlobalOnce(cfg, calls, 0);
        LogLast(cfg, calls, OfSecond(0));
      }
      assert Log(cfg, calls) == Log(cfg, past) + [EntryOf(c.request, Granted(cfg, past, c))];
    }
  }

  // ----- a zero global capacity alone -----

  ghost predicate NothingGranted(cfg: Config, calls: seq<Call>) {
    forall i :: 0 <= i < |calls| ==> !Granted(cfg, calls[..i], calls[i])
  }

  ghost predicate Unspent(cfg: Config, s: State) {
    && (forall k :: k in s.sessions ==> s.sessions[k].tokens == cfg.capacity)
    && (forall k :: k in s.sources ==> s.sources[k].tokens == cfg.capacity)
    && s.global == Initial(cfg).global
  }

  lemma RefusalKeepsUnspent(cfg: Config, s: State, c: Call)
    requires Unspent(cfg, s) && !Allow(cfg, s, c).granted
    ensures Unspent(cfg, Allow(cfg, s, c).state)
  {
  }

  /** While nothing has been granted every narrow bucket is full and the global one is as it began. */
  lemma {:induction false} NothingGrantedNothingSpent(cfg: Config, calls: seq<Call>)
    requires NothingGranted(cfg, calls)
    ensures Unspent(cfg, StateAfter(cfg, calls))
  {
    if calls != [] {
      var past, c := Front(calls), Last(calls);
      forall i | 0 <= i < |past| ensures !Granted(cfg, past[..i], past[i]) {
        assert past[..i] == calls[..i];
      }
      NothingGrantedNothingSpent(cfg, past);
      assert !Granted(cfg, calls[..|past|], calls[|past|]);
      assert calls[..|past|] == past;
      RefusalKeepsUnspent(cfg, StateAfter(cfg, past), c);
    }
  }

  lemma LateCallGranted(cfg: Config, s: State, c: Call)
    requires Unspent(cfg, s) && cfg.capacity >= 1 && CallAllowed(cfg, s, c)
    requires c.request.nowMs >= GLOBAL_WINDOW_MS
    ensures Allow(cfg, s, c).granted
  {
  }

  lemma {:induction false} EarlierCalls(cfg: Config, calls: seq<Call>, n: nat)
    requires n <= |calls| && NothingGranted(cfg, calls)
    ensures NothingGranted(cfg, calls[..n])
  {
    forall j | 0 <= j < n ensures !Granted(cfg, calls[..n][..j], calls[..n][j]) {
      assert calls[..n][..j] == calls[..j];
      assert !Granted(cfg, calls[..j], calls[j]);
    }
  }

  /**
   * The constructor's comment says a zero capacity denies every request. The global one does so
   * exactly as long as every call falls into the first second of the clock: a bucket that meets a
   * window other than its own answers yes before it looks at its tokens.
   */
  lemma ZeroGlobalCapacity(cfg: Config, calls: seq<Call>)
    requires IsTrace(cfg, calls) && cfg.globalCapacity == 0 && cfg.capacity >= 1
    ensures NothingGranted(cfg, calls) <==> forall i :: 0 <= i < |calls| ==> calls[i].request.nowMs < GLOBAL_WINDOW_MS
  {
    if NothingGranted(cfg, calls) {
      forall i | 0 <= i < |calls| ensures calls[i].request.nowMs < GLOBAL_WINDOW_MS {
        PrefixIsTrace(cfg, calls, i);
        EarlierCalls(cfg, calls, i);
        NothingGrantedNothingSpent(cfg, calls[..i]);
        assert !Granted(cfg, calls[..i], calls[i]);
        if calls[i].request.nowMs >= GLOBAL_WINDOW_MS {
          LateCallGranted(cfg, StateAfter(cfg, calls[..i]), calls[i]);
        }
      }
    }
    if forall i :: 0 <= i < |calls| ==> calls[i].request.nowMs < GLOBAL_WINDOW_MS {
      FirstSecondDenied(cfg, calls);
    }
  }

  lemma {:induction false} PrefixIsTrace(cfg: Config, calls: seq<Call>, n: nat)
    requires IsTrace(cfg, calls) && n <= |calls|
    ensures IsTrace(cfg, calls[..n])
    ensures n < |calls| ==> CallAllowed(cfg, StateAfter(cfg, calls[..n]), calls[n])
    decreases |calls|
  {
    if n == |calls| {
      assert calls[..n] == calls;
    } else {
      PrefixIsTrace(cfg, Front(calls), n);
      assert Front(calls)[..n] == calls[..n];
      if n == |calls| - 1 {
        assert Front(calls) == calls[..n];
      }
    }
  }

  lemma DeniedInFirstSecond(cfg: Config, s: State, c: Call)
    requires cfg.globalCapacity == 0 && s.global == Initial(cfg).global && c.request.nowMs < GLOBAL_WINDOW_MS
    ensures !Allow(cfg, s, c).granted && Allow(cfg, s, c).state.global == s.global
  {
    hide BucketFor, FoldIp;
  }

  lemma {:induction false} FirstSecondDenied(cfg: Config, calls: seq<Call>)
    requires cfg.globalCapacity == 0
    requires forall i :: 0 <= i < |calls| ==> calls[i].request.nowMs < GLOBAL_WINDOW_MS
    ensures NothingGranted(cfg, calls) && StateAfter(cfg, calls).global == Initial(cfg).global
  {
    hide Allow;
    if calls != [] {
      var past, c := Front(calls), Last(calls);
      FirstSecondDenied(cfg, past);
      DeniedInFirstSecond(cfg, StateAfter(cfg, past), c);
      forall i | 0 <= i < |calls| ensures !Granted(cfg, calls[..i], calls[i]) {
        if i < |past| {
          assert !Granted(cfg, past[..i], past[i]);
          assert past[..i] == calls[..i];
        } else {
          assert calls[..i] == past;
        }
      }
    }
  }

  /** What the same caller's three calls, one minute apart, do to a limiter without any budget. */
  lemma ThirdMinuteGranted(cfg: Config, a: Call, b: Call, c: Call)
    requires cfg == Config(0, 0)
    requires a == Call(Request("peer", V4([1, 1, 1, 1]), 0), None, None)
    requires b == a.(request := a.request.(nowMs := 60_000)) && c == a.(request := a.request.(nowMs := 120_000))
    ensures var s := Initial(cfg); var s1 := Allow(cfg, s, a).state; var s2 := Allow(cfg, s1, b).state;
            CallAllowed(cfg, s, a) && CallAllowed(cfg, s1, b) && CallAllowed(cfg, s2, c) && Allow(cfg, s2, c).granted
  {
  }

  /** With no budget at all, a caller who asks in three successive minutes is answered the third time. */
  lemma ZeroCapacityGrants()
    ensures exists calls: seq<Call> ::
              IsTrace(Config(0, 0), calls) && CalledInOrder(calls) && |calls| == 3
              && Granted(Config(0, 0), Front(calls), Last(calls))
  {
    var cfg := Config(0, 0);
    var a := Call(Request("peer", V4([1, 1, 1, 1]), 0), None, None);
    var b := a.(request := a.request.(nowMs := 60_000));
    var c := a.(request := a.request.(nowMs := 120_000));
    ThirdMinuteGranted(cfg, a, b, c);
    TraceExtends(cfg, [], a);
    assert [] + [a] == [a];
    TraceExtends(cfg, [a], b);
    assert [a] + [b] == [a, b];
    TraceExtends(cfg, [a, b], c);
    var calls := [a, b] + [c];
    assert Front(calls) == [a, b] && CalledInOrder(calls);
  }
}
